/** The tag ring game as values: the players, the state of a game, what
    tagging a player does to it and what the two listings print.
    The class in manager.dfy is proved against these definitions. */
module Ring {
  import opened Names

  datatype Option<T> = None | Some(value: T)

  /** A player: the name as given at construction and, once tagged, the name
      of whoever tagged them (None while the player is still in the ring). */
  datatype Player = Player(name: string, tagger: Option<string>)

  /** A game: the ring in turn order (each player is trying to tag the next,
      the last one the first) and the out-list, most recently tagged first. */
  datatype Game = Game(ring: seq<Player>, out: seq<Player>)

  /** The two exceptions the game throws. */
  datatype Error = IllegalArgument | IllegalState

  datatype Result<T> = Ok(value: T) | Err(error: Error)

  /** What every game keeps: the ring is never empty, players in the ring have
      no tagger yet and every tagged player has one. */
  ghost predicate Valid(g: Game) {
    |g.ring| > 0 &&
    (forall i :: 0 <= i < |g.ring| ==> g.ring[i].tagger == None) &&
    (forall i :: 0 <= i < |g.out| ==> g.out[i].tagger.Some?)
  }

  /** The names of a list of players, in order. */
  function NamesOf(ps: seq<Player>): seq<string> {
    seq(|ps|, i requires 0 <= i < |ps| => ps[i].name)
  }

  /** Every name of a game, counted with multiplicity, wherever it is. */
  function Census(g: Game): multiset<string> {
    multiset(NamesOf(g.ring)) + multiset(NamesOf(g.out))
  }

  // ---------------------------------------------------------------- construction

  /** The game built from a list of names: one untagged player per name, in
      the given order, and an empty out-list; an empty list is refused. */
  function Init(names: seq<string>): Result<Game> {
    if names == [] then Err(IllegalArgument)
    else Ok(Game(seq(|names|, i requires 0 <= i < |names| => Player(names[i], None)), []))
  }

  lemma InitialGame(names: seq<string>)
    ensures Init(names).Err? <==> names == []
    ensures Init(names).Err? ==> Init(names).error == IllegalArgument
    ensures Init(names).Ok? ==>
              var g := Init(names).value;
              Valid(g) && NamesOf(g.ring) == names && g.out == [] &&
              Census(g) == multiset(names) &&
              (IsOver(g) <==> |names| == 1) &&
              forall n :: n in names ==> Contains(g.ring, n)
  {
    if names != [] {
      var g := Init(names).value;
      assert NamesOf(g.ring) == names;
      forall n | n in names ensures Contains(g.ring, n) {
        var i :| 0 <= i < |names| && names[i] == n;
        EqIgnoreCaseIsEquivalence(n, n, n);
        assert EqIgnoreCase(g.ring[i].name, n);
      }
    }
  }

  // ---------------------------------------------------------------- queries

  /** Some player's name equals the query, ignoring case. */
  predicate Contains(ps: seq<Player>, name: string) {
    exists i :: 0 <= i < |ps| && EqIgnoreCase(ps[i].name, name)
  }

  lemma ContainsTail(ps: seq<Player>, name: string)
    requires Contains(ps, name) && !EqIgnoreCase(ps[0].name, name)
    ensures Contains(ps[1..], name)
  {
    var i :| 0 <= i < |ps| && EqIgnoreCase(ps[i].name, name);
    assert ps[1..][i - 1] == ps[i];
  }

  /** The position of the first player, in order, whose name matches. */
  function FirstMatch(ps: seq<Player>, name: string): (k: nat)
    requires Contains(ps, name)
    ensures k < |ps| && EqIgnoreCase(ps[k].name, name)
    ensures forall j :: 0 <= j < k ==> !EqIgnoreCase(ps[j].name, name)
    decreases |ps|
  {
    if EqIgnoreCase(ps[0].name, name) then 0
    else ContainsTail(ps, name); 1 + FirstMatch(ps[1..], name)
  }

  /** The game is over when one player is left in the ring. */
  predicate IsOver(g: Game) {
    |g.ring| == 1
  }

  /** The position before k in a ring of n players, wrapping from the first
      to the last. */
  function CircularPred(n: nat, k: nat): (p: nat)
    requires k < n
    ensures p < n && (p + 1) % n == k
  {
    if k == 0 then assert n % n == 0; n - 1
    else assert k % n == k; k - 1
  }

  /** The position after k in a ring of n players, wrapping from the last to
      the first; it undoes CircularPred. */
  function CircularSucc(n: nat, k: nat): (s: nat)
    requires k < n
    ensures s < n && s == (k + 1) % n
    ensures CircularPred(n, s) == k
  {
    if k + 1 == n then assert n % n == 0; 0
    else assert (k + 1) % n == k + 1; k + 1
  }

  // ---------------------------------------------------------------- the tag operation

  /** Tags the player called `name`. Both checks come first: a game that is
      over throws IllegalState, a name not in the ring IllegalArgument. When
      the head matches, it is removed and tagged by the tail; otherwise the
      first matching player after the head is spliced out and tagged by the
      player before it. The tagged player goes to the front of the out-list. */
  function Tag(g: Game, name: string): (r: Result<Game>)
    requires g.ring != []
    ensures r.Err? <==> IsOver(g) || !Contains(g.ring, name)
    ensures r.Err? ==> r.error == if IsOver(g) then IllegalState else IllegalArgument
    ensures r.Ok? ==> |r.value.ring| == |g.ring| - 1 && |r.value.out| == |g.out| + 1
  {
    var ring := g.ring;
    if IsOver(g) then Err(IllegalState)
    else if !Contains(ring, name) then Err(IllegalArgument)
    else if EqIgnoreCase(ring[0].name, name) then
      var tail := ring[|ring| - 1];
      Ok(Game(ring[1..], [Player(ring[0].name, Some(tail.name))] + g.out))
    else
      var k := FirstMatch(ring, name);
      Ok(Game(ring[..k] + ring[k + 1..], [Player(ring[k].name, Some(ring[k - 1].name))] + g.out))
  }

  /** Tagging the head: the old second player becomes the head and the tail
      is credited with the tag. */
  lemma TagAtHead(g: Game, name: string)
    requires |g.ring| >= 2 && EqIgnoreCase(g.ring[0].name, name)
    ensures Tag(g, name).Ok?
    ensures var h := Tag(g, name).value;
            h.ring == g.ring[1..] && h.ring[0] == g.ring[1] &&
            h.out[0] == Player(g.ring[0].name, Some(g.ring[|g.ring| - 1].name)) &&
            h.out[1..] == g.out
  {
  }

  /** Whichever branch is taken, a successful tag removes the first matching
      player from the ring, keeps every other ring member in order, credits
      the removed player's circular predecessor and pushes the removed player
      onto the front of the out-list. */
  lemma TagRemovesFirstMatch(g: Game, name: string)
    requires |g.ring| >= 2 && Contains(g.ring, name)
    ensures var k := FirstMatch(g.ring, name);
            var p := CircularPred(|g.ring|, k);
            Tag(g, name) == Ok(Game(g.ring[..k] + g.ring[k + 1..],
                                    [Player(g.ring[k].name, Some(g.ring[p].name))] + g.out))
  {
    var k := FirstMatch(g.ring, name);
    if EqIgnoreCase(g.ring[0].name, name) {
      assert k == 0;
      assert g.ring[..k] + g.ring[k + 1..] == g.ring[1..];
    }
  }

  lemma NamesOfConcat(a: seq<Player>, b: seq<Player>)
    ensures NamesOf(a + b) == NamesOf(a) + NamesOf(b)
  {
  }

  /** A successful tag moves one player from the ring to the out-list: the
      combined size and the names of all players (with multiplicity) are
      preserved, and so is the invariant. */
  lemma TagConserves(g: Game, name: string)
    requires Valid(g) && Tag(g, name).Ok?
    ensures var h := Tag(g, name).value;
            Valid(h) && Census(h) == Census(g) && |h.ring| + |h.out| == |g.ring| + |g.out|
  {
    var h := Tag(g, name).value;
    var k := FirstMatch(g.ring, name);
    var p := CircularPred(|g.ring|, k);
    TagRemovesFirstMatch(g, name);
    var tagged := Player(g.ring[k].name, Some(g.ring[p].name));
    assert h.ring == g.ring[..k] + g.ring[k + 1..];
    assert h.out == [tagged] + g.out;
    assert g.ring == g.ring[..k] + [g.ring[k]] + g.ring[k + 1..];
    NamesOfConcat(g.ring[..k], g.ring[k + 1..]);
    NamesOfConcat(g.ring[..k] + [g.ring[k]], g.ring[k + 1..]);
    NamesOfConcat(g.ring[..k], [g.ring[k]]);
    NamesOfConcat([tagged], g.out);
    assert NamesOf([tagged]) == [g.ring[k].name];
    assert NamesOf([g.ring[k]]) == [g.ring[k].name];
    forall i | 0 <= i < |h.ring| ensures h.ring[i].tagger == None {
      if i < k { assert h.ring[i] == g.ring[i]; } else { assert h.ring[i] == g.ring[i + 1]; }
    }
    forall i | 0 <= i < |h.out| ensures h.out[i].tagger.Some? {
      if i > 0 { assert h.out[i] == g.out[i - 1]; }
    }
  }

  /** Once one player is left, every tag fails with IllegalState. */
  lemma OverIsTerminal(g: Game, name: string)
    requires IsOver(g)
    ensures Tag(g, name) == Err(IllegalState)
  {
  }

  /** Two names equal ignoring case match the same players. */
  lemma MatchesIgnoreCase(ps: seq<Player>, a: string, b: string)
    requires EqIgnoreCase(a, b)
    ensures forall i :: 0 <= i < |ps| ==> (EqIgnoreCase(ps[i].name, a) <==> EqIgnoreCase(ps[i].name, b))
    ensures Contains(ps, a) <==> Contains(ps, b)
  {
    forall i | 0 <= i < |ps| ensures EqIgnoreCase(ps[i].name, a) <==> EqIgnoreCase(ps[i].name, b) {
      EqIgnoreCaseIsEquivalence(ps[i].name, a, b);
      EqIgnoreCaseIsEquivalence(ps[i].name, b, a);
      EqIgnoreCaseIsEquivalence(a, b, b);
    }
  }

  /** Two names equal ignoring case tag the same player. */
  lemma TagIgnoresCase(g: Game, a: string, b: string)
    requires g.ring != [] && EqIgnoreCase(a, b)
    ensures Tag(g, a) == Tag(g, b)
  {
    MatchesIgnoreCase(g.ring, a, b);
    if Contains(g.ring, a) {
      var ka := FirstMatch(g.ring, a);
      var kb := FirstMatch(g.ring, b);
      assert ka == kb;
    }
  }

  // ---------------------------------------------------------------- a whole game

  /** The game after a sequence of tag calls, each applied to the state the
      previous call left; a call that throws leaves the state as it was. */
  function Play(g: Game, calls: seq<string>): (r: Game)
    requires g.ring != []
    ensures r.ring != [] && |r.ring| <= |g.ring|
    decreases |calls|
  {
    if calls == [] then g
    else match Tag(g, calls[0])
      case Ok(h) => Play(h, calls[1..])
      case Err(_) => Play(g, calls[1..])
  }

  /** Along any sequence of tag calls the invariant holds and the census of
      names (with multiplicity) across the two lists never changes. */
  lemma {:induction false} PlayConserves(g: Game, calls: seq<string>)
    requires Valid(g)
    ensures var h := Play(g, calls);
            Valid(h) && Census(h) == Census(g) && |h.ring| + |h.out| == |g.ring| + |g.out|
    decreases |calls|
  {
    if calls != [] {
      match Tag(g, calls[0])
      case Ok(h) =>
        TagConserves(g, calls[0]);
        PlayConserves(h, calls[1..]);
      case Err(_) =>
        PlayConserves(g, calls[1..]);
    }
  }

  /** Once the game is over, no sequence of calls changes it. */
  lemma {:induction false} PlayAfterOver(g: Game, calls: seq<string>)
    requires IsOver(g)
    ensures Play(g, calls) == g
    decreases |calls|
  {
    if calls != [] {
      PlayAfterOver(g, calls[1..]);
    }
  }

  /** A game built from names keeps exactly those names, split between the
      ring and the out-list, however it is played. */
  lemma GameKeepsItsPlayers(names: seq<string>, calls: seq<string>)
    requires names != []
    ensures var h := Play(Init(names).value, calls);
            Valid(h) && Census(h) == multiset(names) && |h.ring| + |h.out| == |names|
  {
    InitialGame(names);
    PlayConserves(Init(names).value, calls);
  }

  /** A name occurs at most once in a list of distinct names. */
  lemma {:induction false} DistinctOnce(s: seq<string>, x: string)
    requires forall i, j :: 0 <= i < j < |s| ==> s[i] != s[j]
    ensures multiset(s)[x] <= 1
  {
    if s != [] {
      DistinctOnce(s[1..], x);
      assert s == [s[0]] + s[1..];
      assert x == s[0] ==> x !in s[1..];
    }
  }

  /** With distinct names, every player is in exactly one of the ring and the
      out-list, however the game is played, and no other name appears. */
  lemma DistinctNamesStaySeparate(names: seq<string>, calls: seq<string>, x: string)
    requires names != []
    requires forall i, j :: 0 <= i < j < |names| ==> names[i] != names[j]
    ensures var h := Play(Init(names).value, calls);
            !(x in NamesOf(h.ring) && x in NamesOf(h.out)) &&
            (x in names <==> x in NamesOf(h.ring) || x in NamesOf(h.out))
  {
    var h := Play(Init(names).value, calls);
    GameKeepsItsPlayers(names, calls);
    DistinctOnce(names, x);
    assert Census(h)[x] == multiset(NamesOf(h.ring))[x] + multiset(NamesOf(h.out))[x];
    assert x in names <==> multiset(names)[x] > 0;
  }

  // ---------------------------------------------------------------- the listings

  /** One line of the ring listing. */
  function TryingLine(name: string, next: string): string {
    "  " + name + " is trying to tag " + next
  }

  /** One line of the out-list listing; a missing tagger prints as "null". */
  function TaggedLine(p: Player): string {
    "  " + p.name + " was tagged by " + (match p.tagger case Some(t) => t case None => "null")
  }

  /** The ring listing: every member is trying to tag the member after it in
      circular order, so the last one is trying to tag the first. */
  function RingLines(ring: seq<Player>): (lines: seq<string>)
    ensures |lines| == |ring|
    ensures forall i :: 0 <= i < |ring| - 1 ==> lines[i] == TryingLine(ring[i].name, ring[i + 1].name)
    ensures ring != [] ==> lines[|ring| - 1] == TryingLine(ring[|ring| - 1].name, ring[0].name)
  {
    seq(|ring|, i requires 0 <= i < |ring| => TryingLine(ring[i].name, ring[CircularSucc(|ring|, i)].name))
  }

  /** The out-list listing, in out-list order. */
  function OutLines(out: seq<Player>): seq<string> {
    seq(|out|, i requires 0 <= i < |out| => TaggedLine(out[i]))
  }

  /** The player credited with a tag is the one the ring listing showed as
      trying to tag the tagged player. */
  lemma TaggerWasTryingToTag(g: Game, name: string)
    requires |g.ring| >= 2 && Contains(g.ring, name)
    ensures Tag(g, name).Ok?
    ensures var t := Tag(g, name).value.out[0];
            t.name == g.ring[FirstMatch(g.ring, name)].name && t.tagger.Some? &&
            TryingLine(t.tagger.value, t.name) in RingLines(g.ring)
  {
    var k := FirstMatch(g.ring, name);
    var p := CircularPred(|g.ring|, k);
    TagRemovesFirstMatch(g, name);
    var lines := RingLines(g.ring);
    assert lines[p] == TryingLine(g.ring[p].name, g.ring[k].name);
  }

  /** After a successful tag the out-list listing is the old one with the
      tagged player's line in front. */
  lemma TagPrependsOutLine(g: Game, name: string)
    requires g.ring != [] && Tag(g, name).Ok?
    ensures var out := Tag(g, name).value.out;
            OutLines(out) == [TaggedLine(out[0])] + OutLines(g.out)
  {
    var out := Tag(g, name).value.out;
    assert out[1..] == g.out;
  }

  // ---------------------------------------------------------------- a worked game

  /** The game built from Alice, Bob and Carol, and its ring listing. */
  lemma AliceBobCarolStart()
    ensures Init(["Alice", "Bob", "Carol"]) ==
            Ok(Game([Player("Alice", None), Player("Bob", None), Player("Carol", None)], []))
    ensures RingLines([Player("Alice", None), Player("Bob", None), Player("Carol", None)]) ==
            [TryingLine("Alice", "Bob"), TryingLine("Bob", "Carol"), TryingLine("Carol", "Alice")]
  {
    var ring := [Player("Alice", None), Player("Bob", None), Player("Carol", None)];
    assert Init(["Alice", "Bob", "Carol"]).value.ring == ring;
    var lines := RingLines(ring);
    assert lines[0] == TryingLine("Alice", "Bob");
    assert lines[1] == TryingLine("Bob", "Carol");
    assert lines[2] == TryingLine("Carol", "Alice");
  }

  /** Tagging "bob" credits Alice, the player trying to tag Bob. */
  lemma AliceBobCarolFirstTag()
    ensures Tag(Game([Player("Alice", None), Player("Bob", None), Player("Carol", None)], []), "bob") ==
            Ok(Game([Player("Alice", None), Player("Carol", None)], [Player("Bob", Some("Alice"))]))
  {
    var ring := [Player("Alice", None), Player("Bob", None), Player("Carol", None)];
    assert !EqIgnoreCase("Alice", "bob") by { assert |"Alice"| != |"bob"|; }
    assert EqIgnoreCase("Bob", "bob") by { assert Fold('B') == 'b'; }
    assert Contains(ring, "bob") by { assert EqIgnoreCase(ring[1].name, "bob"); }
    assert FirstMatch(ring, "bob") == 1;
    assert ring[..1] + ring[2..] == [Player("Alice", None), Player("Carol", None)];
    var g := Game(ring, []);
    TagRemovesFirstMatch(g, "bob");
    assert CircularPred(3, 1) == 0;
    assert Tag(g, "bob") == Ok(Game(ring[..1] + ring[2..], [Player(ring[1].name, Some(ring[0].name))] + []));
    assert [Player(ring[1].name, Some(ring[0].name))] + [] == [Player("Bob", Some("Alice"))];
    assert Tag(g, "bob") == Ok(Game(ring[..1] + ring[2..], [Player("Bob", Some("Alice"))]));
  }

  /** Tagging "CAROL" next also credits Alice, who is then the last player
      left and so the winner. */
  lemma AliceBobCarolSecondTag()
    ensures var g := Game([Player("Alice", None), Player("Carol", None)], [Player("Bob", Some("Alice"))]);
            Tag(g, "CAROL") ==
            Ok(Game([Player("Alice", None)], [Player("Carol", Some("Alice")), Player("Bob", Some("Alice"))])) &&
            IsOver(Tag(g, "CAROL").value)
  {
    var ring := [Player("Alice", None), Player("Carol", None)];
    assert !EqIgnoreCase("Alice", "CAROL") by { assert Fold("Alice"[0]) != Fold("CAROL"[0]); }
    assert EqIgnoreCase("Carol", "CAROL") by {
      assert Fold('A') == 'a' && Fold('R') == 'r' && Fold('O') == 'o' && Fold('L') == 'l';
    }
    assert Contains(ring, "CAROL") by { assert EqIgnoreCase(ring[1].name, "CAROL"); }
    assert FirstMatch(ring, "CAROL") == 1;
    assert ring[..1] + ring[2..] == [Player("Alice", None)];
    var out := [Player("Bob", Some("Alice"))];
    TagRemovesFirstMatch(Game(ring, out), "CAROL");
    assert CircularPred(2, 1) == 0;
    assert [Player(ring[1].name, Some(ring[0].name))] + out == [Player("Carol", Some("Alice")), Player("Bob", Some("Alice"))];
    assert Tag(Game(ring, out), "CAROL") == Ok(Game(ring[..1] + ring[2..], [Player("Carol", Some("Alice"))] + out));
  }
}
