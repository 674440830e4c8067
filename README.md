# Tag ring game (TagManager) in Dafny

This project models `TagManager`, a Java class that runs a "tag ring" elimination game.
The players stand in a ring in turn order. Each player is trying to tag the next one, and the last player is trying to tag the first.
Tagging a player removes them from the ring. They are credited to the player before them in circular order and pushed onto the front of an out-list.
The game is over when one player is left, and that player is the winner.

Files:

- `names.dfy` (module `Names`): comparison of names ignoring case. A-Z fold to a-z, and the two names must have equal length.
- `ring.dfy` (module `Ring`): the game as values. It defines a `Player` (name and optional tagger), a `Game` (ring and out-list), the value-level `Tag` operation, and the two listings as sequences of lines. The lemmas state what tagging does: which player goes, who gets the credit, what is preserved, and what a whole game keeps.
- `manager.dfy` (module `Manager`): class `TagManager`. Its fields `frontIn` (the ring) and `frontOut` (the out-list) are sequences that the methods reassign. The methods keep the source's loops: building the ring, scanning for a name, walking to the tail or to the predecessor, and listing. Each method is proved against the definitions in `Ring`.

The Java class keeps both lists as singly linked chains of nodes that end in null. The ring's wraparound exists only in the code: the ring listing pairs the last node with the head, and tagging the head walks to the tail to find the tagger. The model uses plain sequences with the same order. "Next" and "previous" in circular order are `CircularSucc` and `CircularPred`.

Exceptions become values. `Create` returns `Err(IllegalArgument)` for an empty name list. The method `Tag` returns `Fail(IllegalState)` or `Fail(IllegalArgument)` and leaves both lists unchanged.

Notes on the code:

- Each printed line starts with two spaces (TagManager.java:57-61, 78-82).
- `tagRingContains(null)` returns false, because `equalsIgnoreCase(null)` is false. Its Javadoc at TagManager.java:95 says it throws NullPointerException. Null names are not modelled.
- When names repeat, `tag` removes the first matching player in ring order. The head is checked first, then the players after it.

## Model

| member | source | states |
|---|---|---|
| `Manager.TagManager.Create` | TagManager.java:28-43 | An empty name list fails with IllegalArgument, and only an empty list fails. Otherwise the result is a fresh, valid game equal to `Init(names)`: one untagged player per name in the given order, and an empty out-list. |
| `Manager.TagManager.constructor` | TagManager.java:32-43 | The loop appends one player per name after the last one. The resulting state is exactly the initial game, and it satisfies the game invariant. |
| `Ring.InitialGame` | TagManager.java:28-43 | Construction fails exactly for the empty list, with IllegalArgument. Otherwise the ring's names are the input names in order, and the out-list is empty. The census of names equals the multiset of the input. Every input name is in the ring ignoring case. The game starts over exactly when it has one name. |
| `Ring.RingLines` | TagManager.java:53-65 | There is one line per ring member. Member i is "trying to tag" member i+1, and the last member is trying to tag the head. |
| `Ring.CircularSucc` | TagManager.java:56-61 | The next position wraps from the last to the first, so it is (k+1) mod n. It is the inverse of `CircularPred`. |
| `Manager.TagManager.DescribeRing` | TagManager.java:53-65 | The walk from the head, with its "last node" branch, yields exactly `RingLines` of the ring, which uses the circular successor. |
| `Manager.TagManager.DescribeOutList` | TagManager.java:74-87 | The walk yields one "was tagged by" line per out-list entry, in out-list order. The two identical branches of the source are one case. |
| `Manager.TagManager.TagRingContains` | TagManager.java:97-106 | The result is true iff some ring member's name equals the query ignoring case. The method only reads. |
| `Manager.TagManager.OutListContains` | TagManager.java:116-125 | The result is true iff some out-list entry's name equals the query ignoring case. The method only reads. |
| `Manager.TagManager.IsGameOver` | TagManager.java:134-139 | The result is true iff the ring has exactly one member. |
| `Manager.TagManager.Winner` | TagManager.java:150-155 | The result is a name iff the game is over, and then it is the sole ring member's name. Otherwise it is none. |
| `Ring.FirstMatch` | TagManager.java:176-190 | Returns the position of the first ring member whose name matches ignoring case: it matches and no earlier member does. |
| `Ring.CircularPred` | TagManager.java:177-196 | Returns the position before k in a ring of n, wrapping from the head to the tail. It is the unique p < n with (p+1) mod n = k. |
| `Ring.Tag` | TagManager.java:168-204 | Fails iff the game is over or the name is not in the ring. The error is IllegalState when over, else IllegalArgument. On success the ring shrinks by one and the out-list grows by one. |
| `Ring.TagAtHead` | TagManager.java:177-184 | Tagging the head succeeds. The old second player becomes the head, the tail is credited as tagger, and the old out-list follows the tagged player. |
| `Ring.TagRemovesFirstMatch` | TagManager.java:176-203 | On either branch, the first matching player is spliced out and all other ring members keep their order. The player's circular predecessor is recorded as tagger, and the player is pushed onto the front of the unchanged out-list. |
| `Ring.TagConserves` | TagManager.java:176-203 | A successful tag preserves the invariant (non-empty ring, untagged ring, tagged out-list). It also preserves the combined size and the multiset of all names. |
| `Ring.OverIsTerminal` | TagManager.java:169-171 | Once one player is left, every tag fails with IllegalState. |
| `Ring.MatchesIgnoreCase` | TagManager.java:97-106 | Two queries equal ignoring case match the same players. Membership answers the same for both. |
| `Ring.TagIgnoresCase` | TagManager.java:172-189 | Tagging with two names equal ignoring case gives the same result, for example "ALICE" and "Alice". |
| `Ring.TaggerWasTryingToTag` | TagManager.java:176-196 | The tagged player is the first match. The credited tagger is the player whose ring-listing line says it was trying to tag that player. |
| `Ring.TagPrependsOutLine` | TagManager.java:198-203 | After a successful tag, the out-list listing is the tagged player's line followed by the previous listing. |
| `Ring.Play` | TagManager.java:168-204 | Over any sequence of tag calls, with failed calls changing nothing, the ring never becomes empty and never grows. |
| `Ring.PlayConserves` | TagManager.java:168-204 | Over any sequence of tag calls, the invariant and the combined size are preserved. The census of names (with multiplicity) across the two lists is preserved too. |
| `Ring.PlayAfterOver` | TagManager.java:134-139 | A game that is over is never changed by further calls. |
| `Ring.GameKeepsItsPlayers` | TagManager.java:28-43 | A game built from a non-empty list, played with any calls, holds exactly the input names (with multiplicity) across its two lists. |
| `Ring.DistinctNamesStaySeparate` | TagManager.java:168-204 | A game built from distinct names and played with any calls never has a name in both the ring and the out-list. A name appears in one of them iff it is an input name, so every player is in exactly one list. |
| `Ring.AliceBobCarolStart` | TagManager.java:53-65 | The ring [Alice, Bob, Carol] lists Alice→Bob, Bob→Carol and Carol→Alice. |
| `Ring.AliceBobCarolFirstTag` | TagManager.java:185-203 | Tagging "bob" leaves [Alice, Carol] and records Bob tagged by Alice. |
| `Ring.AliceBobCarolSecondTag` | TagManager.java:185-203 | Tagging "CAROL" next leaves [Alice], and the game is over. The out-list is Carol (by Alice), then Bob (by Alice). |
| `Manager.TagManager.Tag` | TagManager.java:168-204 | Both checks happen before any change. On failure, the outcome is the error that `Ring.Tag` gives and the state is unchanged. On success, the new state is `Ring.Tag` of the old state. The invariant and the census of names are kept. The loops find the tail (head case) or the predecessor of the first match (other case). |
| `Names.EqIgnoreCaseIffSameFold` | TagManager.java:100 | Two names are equal ignoring case iff their case-folded forms are equal. |
| `Names.EqIgnoreCaseIsEquivalence` | TagManager.java:100 | Equality ignoring case is reflexive, symmetric and transitive. |
| `Names.FoldAllIsCanonical` | TagManager.java:100 | A name is equal ignoring case to its folded form, and folding a folded name changes nothing. The folded form is therefore a canonical representative of its class. |
| `Names.FoldIsLowerCase` | TagManager.java:100 | Folding yields no upper-case ASCII letter, and folding is idempotent. |

## Left out

- Console output: `printTagRing` and `printOutList` write lines to the console. The model returns the same lines, each starting with two spaces, as a sequence of strings.
- Case-insensitive comparison folds only the ASCII letters A-Z. Java's `equalsIgnoreCase` also folds non-ASCII letters through Unicode case tables, and those are not modelled.
- Null: a null name list, null names and a null ring are not modelled. `IsGameOver` and `Winner` require a non-empty ring, which is where the Java code would throw NullPointerException. The class invariant keeps the ring non-empty.
- Manager.TagManager.constructor: requires a non-empty list, because a Dafny constructor cannot fail. The source's IllegalArgumentException for an empty list is modelled by `Create`, which checks the list before constructing.
- Node identity: the `TagNode` class is not part of this model. Players are values, so a node reused in place (its `next` and `tagger` fields rewired) becomes a new `Player` value with the same name. Aliasing of nodes is not represented.
