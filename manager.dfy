/** The tag ring game as an object: the ring and the out-list are fields that
    the methods update in place. Every method is proved against the value-level
    definitions of module Ring. */
module Manager {
  import opened Names
  import opened Ring

  /** How a call to Tag ends: normally, or with one of the two exceptions. */
  datatype Outcome = Pass | Fail(error: Error)

  class TagManager {
    /** The ring, in turn order: frontIn[0] is its head. */
    var frontIn: seq<Player>
    /** The out-list, most recently tagged first. */
    var frontOut: seq<Player>

    /** The game this object holds. */
    function State(): Game
      reads this
    {
      Game(frontIn, frontOut)
    }

    ghost predicate Valid()
      reads this
    {
      Ring.Valid(State())
    }

    /** Builds the ring from the names, one player per name in the given
        order, appending each new player after the last one; the out-list
        starts empty. Only Create calls it, after refusing an empty list. */
    constructor (names: seq<string>)
      requires names != []
      ensures Valid()
      ensures State() == Init(names).value
    {
      var ring: seq<Player> := [];
      for i := 0 to |names|
        invariant |ring| == i
        invariant forall j :: 0 <= j < i ==> ring[j] == Player(names[j], None)
      {
        ring := ring + [Player(names[i], None)];
      }
      frontIn := ring;
      frontOut := [];
      new;
      assert frontIn == Init(names).value.ring;
    }

    /** Creates a game from a list of names; an empty list is refused with
        IllegalArgument. */
    static method Create(names: seq<string>) returns (r: Result<TagManager>)
      ensures r.Err? <==> names == []
      ensures r.Err? ==> r.error == IllegalArgument
      ensures r.Ok? ==> fresh(r.value) && r.value.Valid() && Init(names) == Ok(r.value.State())
    {
      if names == [] {
        return Err(IllegalArgument);
      }
      var m := new TagManager(names);
      return Ok(m);
    }

    /** The ring listing, walking the ring from its head: each member is
        trying to tag the next one, and the last one the head. */
    method DescribeRing() returns (lines: seq<string>)
      ensures lines == RingLines(frontIn)
    {
      lines := [];
      var i := 0;
      while i < |frontIn|
        invariant 0 <= i <= |frontIn|
        invariant lines == RingLines(frontIn)[..i]
      {
        if i + 1 == |frontIn| {
          lines := lines + [TryingLine(frontIn[i].name, frontIn[0].name)];
        } else {
          lines := lines + [TryingLine(frontIn[i].name, frontIn[i + 1].name)];
        }
        i := i + 1;
      }
    }

    /** The out-list listing, walking the out-list from its front. */
    method DescribeOutList() returns (lines: seq<string>)
      ensures lines == OutLines(frontOut)
    {
      lines := [];
      var i := 0;
      while i < |frontOut|
        invariant 0 <= i <= |frontOut|
        invariant lines == OutLines(frontOut)[..i]
      {
        lines := lines + [TaggedLine(frontOut[i])];
        i := i + 1;
      }
    }

    /** Whether some ring member's name equals the query, ignoring case. */
    method TagRingContains(name: string) returns (found: bool)
      ensures found == Contains(frontIn, name)
    {
      var i := 0;
      while i < |frontIn|
        invariant 0 <= i <= |frontIn|
        invariant forall j :: 0 <= j < i ==> !EqIgnoreCase(frontIn[j].name, name)
      {
        if EqIgnoreCase(frontIn[i].name, name) {
          return true;
        }
        i := i + 1;
      }
      return false;
    }

    /** Whether some tagged player's name equals the query, ignoring case. */
    method OutListContains(name: string) returns (found: bool)
      ensures found == Contains(frontOut, name)
    {
      var i := 0;
      while i < |frontOut|
        invariant 0 <= i <= |frontOut|
        invariant forall j :: 0 <= j < i ==> !EqIgnoreCase(frontOut[j].name, name)
      {
        if EqIgnoreCase(frontOut[i].name, name) {
          return true;
        }
        i := i + 1;
      }
      return false;
    }

    /** The game is over when the head has no successor. */
    method IsGameOver() returns (over: bool)
      requires frontIn != []
      ensures over <==> |frontIn| == 1
    {
      over := |frontIn[1..]| == 0;
    }

    /** The name of the last player left, or None while the game goes on. */
    method Winner() returns (w: Option<string>)
      requires frontIn != []
      ensures w.Some? <==> |frontIn| == 1
      ensures w.Some? ==> w.value == frontIn[0].name && NamesOf(frontIn) == [w.value]
    {
      var over := IsGameOver();
      if over {
        return Some(frontIn[0].name);
      }
      return None;
    }

    /** Tags the player called `name`. A game that is over fails with
        IllegalState and a name not in the ring with IllegalArgument, both
        before anything changes. Otherwise the matching player is removed from
        the ring, credited to the player before it in circular order (the tail
        when the head is tagged) and pushed onto the front of the out-list. */
    method Tag(name: string) returns (outcome: Outcome)
      requires Valid()
      modifies this
      ensures Valid()
      ensures Census(State()) == Census(old(State()))
      ensures match Ring.Tag(old(State()), name)
              case Ok(g) => outcome == Pass && State() == g
              case Err(e) => outcome == Fail(e) && State() == old(State())
    {
      var over := IsGameOver();
      if over {
        return Fail(IllegalState);
      }
      var present := TagRingContains(name);
      if !present {
        return Fail(IllegalArgument);
      }
      ghost var g := State();
      TagRemovesFirstMatch(g, name);
      TagConserves(g, name);
      var tagged: Player;
      if EqIgnoreCase(frontIn[0].name, name) {
        // walk to the tail, which is trying to tag the head
        var curr := 0;
        while curr + 1 < |frontIn|
          invariant 0 <= curr < |frontIn|
        {
          curr := curr + 1;
        }
        tagged := Player(frontIn[0].name, Some(frontIn[curr].name));
        frontIn := frontIn[1..];
      } else {
        // walk to the player just before the first match after the head
        var curr := 0;
        while !EqIgnoreCase(frontIn[curr + 1].name, name)
          invariant 0 <= curr < FirstMatch(g.ring, name)
          invariant forall j :: 0 <= j <= curr ==> !EqIgnoreCase(frontIn[j].name, name)
          decreases |frontIn| - curr
        {
          curr := curr + 1;
        }
        tagged := Player(frontIn[curr + 1].name, Some(frontIn[curr].name));
        frontIn := frontIn[..curr + 1] + frontIn[curr + 2..];
      }
      frontOut := [tagged] + frontOut;
      outcome := Pass;
    }
  }
}
