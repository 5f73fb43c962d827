/** What a run does to a command line: it is a stable partition, and running again on the
    result changes nothing, unless an option that was left without its argument now finds
    a positional behind it.
 */
module OptionProofs {
  import opened Wrappers
  import opened Sequences
  import opened OptionGrammar

  // ---- selecting slots -----------------------------------------------------------------

  lemma SelectUnfold(a: seq<string>, roles: seq<Role>, r: Role)
    requires |a| == |roles| && a != []
    ensures Select(a, roles, r) == (if roles[0] == r then [a[0]] else []) + Select(a[1..], roles[1..], r)
  {
  }

  lemma SelectEmpty(r: Role)
    ensures Select([], [], r) == [] && forall from :: Positions([], r, from) == []
  {
  }

  lemma {:induction false} SelectAppend(a: seq<string>, ra: seq<Role>, b: seq<string>, rb: seq<Role>, r: Role)
    requires |a| == |ra| && |b| == |rb|
    ensures Select(a + b, ra + rb, r) == Select(a, ra, r) + Select(b, rb, r)
    decreases |a|
  {
    hide Select, Positions;
    if a == [] {
      SelectEmpty(r);
      assert ra == [] && a + b == b && ra + rb == rb;
    } else {
      SelectUnfold(a + b, ra + rb, r);
      SelectUnfold(a, ra, r);
      assert (a + b)[1..] == a[1..] + b && (ra + rb)[1..] == ra[1..] + rb;
      SelectAppend(a[1..], ra[1..], b, rb, r);
    }
  }

  lemma {:induction false} SelectRepeat(a: seq<string>, q: Role, r: Role)
    ensures Select(a, Repeat(q, |a|), r) == if q == r then a else []
    decreases |a|
  {
    if a != [] {
      assert Repeat(q, |a|)[1..] == Repeat(q, |a| - 1);
      SelectRepeat(a[1..], q, r);
    }
  }

  lemma MultisetFirst(x: string, s: seq<string>)
    ensures multiset([x] + s) == multiset{x} + multiset(s)
  {
  }

  lemma SelectCount(a: seq<string>, roles: seq<Role>, r: Role)
    requires |a| == |roles| && a != []
    ensures multiset(Select(a, roles, r))
         == (if roles[0] == r then multiset{a[0]} else multiset{}) + multiset(Select(a[1..], roles[1..], r))
  {
    hide Select;
    SelectUnfold(a, roles, r);
    var rest := Select(a[1..], roles[1..], r);
    MultisetFirst(a[0], rest);
    assert [] + rest == rest;
  }

  lemma {:induction false} SelectCounts(a: seq<string>, roles: seq<Role>)
    requires |a| == |roles|
    ensures multiset(Select(a, roles, Consumed)) + multiset(Select(a, roles, Skipped))
            + multiset(Select(a, roles, Raw)) == multiset(a)
    decreases |a|
  {
    hide Select, Positions;
    if a == [] {
      SelectEmpty(Consumed);
      SelectEmpty(Skipped);
      SelectEmpty(Raw);
      assert roles == [];
    } else {
      SelectCounts(a[1..], roles[1..]);
      SelectCount(a, roles, Consumed);
      SelectCount(a, roles, Skipped);
      SelectCount(a, roles, Raw);
      assert a == [a[0]] + a[1..];
      MultisetFirst(a[0], a[1..]);
    }
  }

  /** `at` lists positions of `a` in increasing order, and `b` is what stands there. */
  ghost predicate InOrder(b: seq<string>, a: seq<string>, at: seq<int>) {
    && |at| == |b|
    && (forall i :: 0 <= i < |at| ==> 0 <= at[i] < |a| && a[at[i]] == b[i])
    && (forall i, j :: 0 <= i < j < |at| ==> at[i] < at[j])
  }

  /** The positions that play role `r`. */
  function Positions(roles: seq<Role>, r: Role, from: int): (at: seq<int>)
    ensures forall i :: 0 <= i < |at| ==> from <= at[i] < from + |roles| && roles[at[i] - from] == r
    ensures forall i, j :: 0 <= i < j < |at| ==> at[i] < at[j]
    decreases |roles|
  {
    if roles == [] then []
    else (if roles[0] == r then [from] else []) + Positions(roles[1..], r, from + 1)
  }

  lemma {:induction false} PositionsComplete(roles: seq<Role>, r: Role, from: int, k: nat)
    requires k < |roles| && roles[k] == r
    ensures from + k in Positions(roles, r, from)
    decreases |roles|
  {
    if k > 0 {
      PositionsComplete(roles[1..], r, from + 1, k - 1);
    }
  }

  lemma PositionsUnfold(roles: seq<Role>, r: Role, from: int)
    requires roles != []
    ensures Positions(roles, r, from)
         == (if roles[0] == r then [from] else []) + Positions(roles[1..], r, from + 1)
  {
  }

  /** `b` is what stands at the positions `at` of `a`, counted from `from`. */
  ghost predicate StandsAt(b: seq<string>, a: seq<string>, at: seq<int>, from: int) {
    && |at| == |b|
    && (forall i :: 0 <= i < |at| ==> from <= at[i] < from + |a| && a[at[i] - from] == b[i])
  }

  lemma StandsAtMoved(b: seq<string>, a: seq<string>, at: seq<int>, from: int)
    requires a != [] && StandsAt(b, a[1..], at, from + 1)
    ensures StandsAt([] + b, a, [] + at, from) && StandsAt([a[0]] + b, a, [from] + at, from)
  {
    forall i | 0 <= i < |at|
      ensures a[at[i] - from] == b[i]
    {
      assert a[1..][at[i] - (from + 1)] == b[i];
    }
  }

  lemma {:induction false} SelectAtPositions(a: seq<string>, roles: seq<Role>, r: Role, from: int)
    requires |a| == |roles|
    ensures StandsAt(Select(a, roles, r), a, Positions(roles, r, from), from)
    decreases |a|
  {
    hide Select, Positions;
    if a == [] {
      SelectEmpty(r);
      assert roles == [];
    } else {
      hide StandsAt;
      SelectUnfold(a, roles, r);
      PositionsUnfold(roles, r, from);
      SelectAtPositions(a[1..], roles[1..], r, from + 1);
      StandsAtMoved(Select(a[1..], roles[1..], r), a, Positions(roles[1..], r, from + 1), from);
    }
  }

  /** Selected slots keep their order, and they are all the slots with that role. */
  lemma SelectInOrder(a: seq<string>, roles: seq<Role>, r: Role) returns (at: seq<int>)
    requires |a| == |roles|
    ensures InOrder(Select(a, roles, r), a, at)
    ensures forall k :: 0 <= k < |a| ==> (roles[k] == r <==> k in at)
  {
    at := Positions(roles, r, 0);
    SelectAtPositions(a, roles, r, 0);
    forall k | 0 <= k < |a| && roles[k] == r
      ensures k in at
    {
      PositionsComplete(roles, r, 0, k);
    }
  }

  // ---- the first slot --------------------------------------------------------------------

  /** An option that is not "--" is taken with its argument, if that is the next slot. */
  lemma SlotFirst(opts: seq<LongOption>, args: seq<string>)
    requires args != [] && !IsPositional(args[0]) && args[0] != "--"
    ensures var s := ParseSlot(opts, args);
            var rest := args[s.width..];
            && Results(opts, args) == s.results + Results(opts, rest)
            && Roles(opts, args) == Repeat(Consumed, s.width) + Roles(opts, rest)
            && Taken(opts, args) == args[..s.width] + Taken(opts, rest)
            && Positionals(opts, args) == Positionals(opts, rest)
            && RawTail(opts, args) == RawTail(opts, rest)
            && NoLoneDash(opts, args) == (args[0] != "-" && NoLoneDash(opts, rest))
  {
    hide Select, ParseSlot, Repeat, Roles, Results, NoLoneDash;
    var w := ParseSlot(opts, args).width;
    var mine, rest := args[..w], args[w..];
    assert args == mine + rest;
    SlotUnfold(opts, args);
    SelectFirst(mine, Consumed, rest, Roles(opts, rest));
  }

  lemma SlotUnfold(opts: seq<LongOption>, args: seq<string>)
    requires args != [] && !IsPositional(args[0]) && args[0] != "--"
    ensures var s := ParseSlot(opts, args);
            && Results(opts, args) == s.results + Results(opts, args[s.width..])
            && Roles(opts, args) == Repeat(Consumed, s.width) + Roles(opts, args[s.width..])
            && NoLoneDash(opts, args) == (args[0] != "-" && NoLoneDash(opts, args[s.width..]))
  {
    hide ParseSlot, Repeat;
  }

  lemma SelectFirst(a: seq<string>, q: Role, b: seq<string>, rb: seq<Role>)
    requires |b| == |rb|
    ensures Select(a + b, Repeat(q, |a|) + rb, Consumed)
         == (if q == Consumed then a else []) + Select(b, rb, Consumed)
    ensures Select(a + b, Repeat(q, |a|) + rb, Skipped)
         == (if q == Skipped then a else []) + Select(b, rb, Skipped)
    ensures Select(a + b, Repeat(q, |a|) + rb, Raw)
         == (if q == Raw then a else []) + Select(b, rb, Raw)
  {
    hide Select, Repeat;
    SelectAppend(a, Repeat(q, |a|), b, rb, Consumed);
    SelectAppend(a, Repeat(q, |a|), b, rb, Skipped);
    SelectAppend(a, Repeat(q, |a|), b, rb, Raw);
    SelectRepeat(a, q, Consumed);
    SelectRepeat(a, q, Skipped);
    SelectRepeat(a, q, Raw);
  }

  lemma SelectLast(a: seq<string>, ra: seq<Role>, b: seq<string>, q: Role)
    requires |a| == |ra|
    ensures Select(a + b, ra + Repeat(q, |b|), Consumed)
         == Select(a, ra, Consumed) + (if q == Consumed then b else [])
    ensures Select(a + b, ra + Repeat(q, |b|), Skipped)
         == Select(a, ra, Skipped) + (if q == Skipped then b else [])
  {
    hide Select, Repeat;
    SelectAppend(a, ra, b, Repeat(q, |b|), Consumed);
    SelectAppend(a, ra, b, Repeat(q, |b|), Skipped);
    SelectRepeat(b, q, Consumed);
    SelectRepeat(b, q, Skipped);
  }

  lemma PositionalFirst(opts: seq<LongOption>, args: seq<string>)
    requires args != [] && IsPositional(args[0])
    ensures var rest := args[1..];
            && Results(opts, args) == Results(opts, rest)
            && Roles(opts, args) == [Skipped] + Roles(opts, rest)
            && Taken(opts, args) == Taken(opts, rest)
            && Positionals(opts, args) == [args[0]] + Positionals(opts, rest)
            && RawTail(opts, args) == RawTail(opts, rest)
            && NoLoneDash(opts, args) == NoLoneDash(opts, rest)
            && Stops(opts, args) == Stops(opts, rest)
  {
    var roles := Roles(opts, args[1..]);
    assert Repeat(Skipped, 1) == [Skipped] && [args[0]] + args[1..] == args;
    SelectFirst([args[0]], Skipped, args[1..], roles);
    hide Select;
  }

  lemma StopFirst(opts: seq<LongOption>, args: seq<string>)
    requires args != [] && args[0] == "--"
    ensures Results(opts, args) == [] && NoLoneDash(opts, args)
    ensures Roles(opts, args) == [Consumed] + Repeat(Raw, |args| - 1)
    ensures Taken(opts, args) == ["--"] && Positionals(opts, args) == [] && RawTail(opts, args) == args[1..]
  {
    hide Select, Roles, Results, NoLoneDash;
    var roles := Repeat(Raw, |args| - 1);
    StopUnfold(opts, args);
    assert Repeat(Consumed, 1) == [Consumed] && ["--"] + args[1..] == args;
    SelectFirst(["--"], Consumed, args[1..], roles);
    SelectRepeat(args[1..], Raw, Consumed);
    SelectRepeat(args[1..], Raw, Skipped);
    SelectRepeat(args[1..], Raw, Raw);
  }

  lemma StopUnfold(opts: seq<LongOption>, args: seq<string>)
    requires args != [] && args[0] == "--"
    ensures Results(opts, args) == [] && NoLoneDash(opts, args)
    ensures Roles(opts, args) == [Consumed] + Repeat(Raw, |args| - 1)
  {
    hide ParseSlot, Repeat;
  }

  /** A run only permutes the command line. */
  lemma PermutedIsPermutation(opts: seq<LongOption>, args: seq<string>)
    ensures multiset(Permuted(opts, args)) == multiset(args)
  {
    SelectCounts(args, Roles(opts, args));
  }

  /** What the slots from the final index on are: the positionals in their order and, if the
      run was stopped by "--", everything that stood behind it. */
  lemma {:induction false} EndState(opts: seq<LongOption>, args: seq<string>)
    ensures forall i :: 0 <= i < |Positionals(opts, args)| ==> IsPositional(Positionals(opts, args)[i])
    ensures !Stops(opts, args) ==> RawTail(opts, args) == []
    ensures Stops(opts, args) ==>
              var k := |args| - |RawTail(opts, args)|;
              && k > 0 && args[k - 1] == "--" && Roles(opts, args)[k - 1] == Consumed
              && RawTail(opts, args) == args[k..]
    decreases |args|
  {
    hide Roles, Select, ParseSlot, Taken, Positionals, RawTail;
    if args == [] {
      NothingSelected(opts);
    } else if IsPositional(args[0]) {
      PositionalFirst(opts, args);
      EndState(opts, args[1..]);
    } else if args[0] == "--" {
      StopFirst(opts, args);
    } else {
      SlotFirst(opts, args);
      EndState(opts, args[ParseSlot(opts, args).width..]);
    }
  }

  lemma NothingSelected(opts: seq<LongOption>)
    ensures Taken(opts, []) == Positionals(opts, []) == RawTail(opts, []) == []
  {
  }

  // ---- running twice -------------------------------------------------------------------

  /** The results and roles of the taken slots do not depend on what comes after them. */
  lemma {:induction false} TakenAgain(opts: seq<LongOption>, args: seq<string>, tail: seq<string>)
    requires !LacksArgument(opts, args)
    ensures Results(opts, Taken(opts, args) + tail)
         == Results(opts, args) + (if Stops(opts, args) then [] else Results(opts, tail))
    ensures Roles(opts, Taken(opts, args) + tail)
         == Repeat(Consumed, |Taken(opts, args)|)
            + (if Stops(opts, args) then Repeat(Raw, |tail|) else Roles(opts, tail))
    ensures NoLoneDash(opts, Taken(opts, args) + tail)
         == (NoLoneDash(opts, args) && (Stops(opts, args) || NoLoneDash(opts, tail)))
    decreases |args|
  {
    hide Roles, Select, ParseSlot, Taken, Results, NoLoneDash;
    var line := Taken(opts, args) + tail;
    if args == [] {
      NothingSelected(opts);
      NothingParsed(opts);
      assert line == tail;
    } else if IsPositional(args[0]) {
      PositionalFirst(opts, args);
      TakenAgain(opts, args[1..], tail);
    } else if args[0] == "--" {
      StopFirst(opts, args);
      StopFirst(opts, line);
      assert Repeat(Consumed, 1) == [Consumed];
    } else {
      SlotAgain(opts, args, tail);
      var w := ParseSlot(opts, args).width;
      TakenAgain(opts, args[w..], tail);
      SlotFirst(opts, args);
      SlotFirst(opts, line);
      assert line[w..] == Taken(opts, args[w..]) + tail;
      assert Repeat(Consumed, w) + Repeat(Consumed, |Taken(opts, args[w..])|)
          == Repeat(Consumed, |Taken(opts, args)|);
    }
  }

  lemma NothingParsed(opts: seq<LongOption>)
    ensures Results(opts, []) == [] && Roles(opts, []) == [] && NoLoneDash(opts, [])
  {
  }

  /** The first taken slot is parsed the same way on the permuted line. */
  lemma SlotAgain(opts: seq<LongOption>, args: seq<string>, tail: seq<string>)
    requires args != [] && !IsPositional(args[0]) && args[0] != "--"
    requires !ParseSlot(opts, args).missing
    ensures var line := Taken(opts, args) + tail;
            && line != [] && line[0] == args[0]
            && ParseSlot(opts, line) == ParseSlot(opts, args)
  {
    var w := ParseSlot(opts, args).width;
    SlotFirst(opts, args);
    hide Taken;
    var line := Taken(opts, args) + tail;
    assert line[0] == args[0];
    if w == 1 {
      if !IsLong(args[0]) {
        PackAlone(opts, args[0][1..], Following(args), Following(line));
      }
    } else {
      assert line[1] == args[1];
    }
  }

  lemma {:induction false} OnlyPositionals(opts: seq<LongOption>, args: seq<string>)
    requires forall i :: 0 <= i < |args| ==> IsPositional(args[i])
    ensures Results(opts, args) == [] && Roles(opts, args) == Repeat(Skipped, |args|)
    ensures NoLoneDash(opts, args)
    decreases |args|
  {
    if args != [] {
      OnlyPositionals(opts, args[1..]);
    }
  }

  /** Running again on the permuted line gives the same results and the same final index,
      and moves nothing, when no option lacked its argument. */
  lemma RunAgainComplete(opts: seq<LongOption>, args: seq<string>)
    requires !LacksArgument(opts, args)
    ensures var line := Permuted(opts, args);
            && Results(opts, line) == Results(opts, args)
            && Taken(opts, line) == Taken(opts, args)
            && Permuted(opts, line) == line
            && (NoLoneDash(opts, args) ==> NoLoneDash(opts, line))
  {
    hide Roles, Select, Results, Stops, LacksArgument, NoLoneDash, Repeat, Positionals, RawTail;
    var c, s, t := Taken(opts, args), Positionals(opts, args), RawTail(opts, args);
    var line := Permuted(opts, args);
    assert line == c + (s + t);
    TakenAgain(opts, args, s + t);
    if Stops(opts, args) {
      LayoutAgain(opts, line, c, s + t, Raw);
    } else {
      PlainEnd(opts, args);
      assert s + t == s;
      OnlyPositionals(opts, s);
      LayoutAgain(opts, line, c, s, Skipped);
    }
  }

  lemma PlainEnd(opts: seq<LongOption>, args: seq<string>)
    requires !Stops(opts, args)
    ensures RawTail(opts, args) == []
    ensures forall i :: 0 <= i < |Positionals(opts, args)| ==> IsPositional(Positionals(opts, args)[i])
  {
    hide Positionals, RawTail, Stops;
    EndState(opts, args);
  }

  /** A line of taken slots and one other kind of slots is not permuted. */
  lemma LayoutAgain(opts: seq<LongOption>, line: seq<string>, c: seq<string>, rest: seq<string>, q: Role)
    requires line == c + rest && q != Consumed
    requires Roles(opts, line) == Repeat(Consumed, |c|) + Repeat(q, |rest|)
    ensures Taken(opts, line) == c && Permuted(opts, line) == line
  {
    hide Roles, Select, Repeat;
    SelectFirst(c, Consumed, rest, Repeat(q, |rest|));
    SelectAll(rest, q);
    assert Taken(opts, line) == c;
    assert Positionals(opts, line) + RawTail(opts, line) == rest;
    assert Permuted(opts, line) == c + (Positionals(opts, line) + RawTail(opts, line));
  }

  lemma SelectAll(a: seq<string>, q: Role)
    ensures Select(a, Repeat(q, |a|), Consumed) == if q == Consumed then a else []
    ensures Select(a, Repeat(q, |a|), Skipped) == if q == Skipped then a else []
    ensures Select(a, Repeat(q, |a|), Raw) == if q == Raw then a else []
  {
    SelectRepeat(a, q, Consumed);
    SelectRepeat(a, q, Skipped);
    SelectRepeat(a, q, Raw);
  }

  /** An option that lacked its argument takes the first positional on the second run. */
  lemma {:induction false} LackingAgain(opts: seq<LongOption>, args: seq<string>, tail: seq<string>)
    requires LacksArgument(opts, args) && tail != []
    requires forall i :: 0 <= i < |tail| ==> IsPositional(tail[i])
    ensures Results(opts, Taken(opts, args) + tail) != Results(opts, args)
    decreases |args|
  {
    hide Roles, Select, ParseSlot, Taken, Results, IsPositional, Positionals, RawTail;
    if IsPositional(args[0]) {
      PositionalFirst(opts, args);
      LackingAgain(opts, args[1..], tail);
    } else {
      var slot := ParseSlot(opts, args);
      var line := Taken(opts, args) + tail;
      if slot.missing {
        LastSlotFilled(opts, args, tail);
      } else {
        SlotAgain(opts, args, tail);
        SlotFirst(opts, args);
        SlotFirst(opts, line);
        var rest := args[slot.width..];
        LackingAgain(opts, rest, tail);
        assert line[slot.width..] == Taken(opts, rest) + tail;
        SamePrefix(slot.results, Results(opts, line[slot.width..]), Results(opts, rest));
      }
    }
  }

  lemma SamePrefix(a: seq<Result>, x: seq<Result>, y: seq<Result>)
    ensures a + x == a + y ==> x == y
  {
    assert (a + x)[|a|..] == x && (a + y)[|a|..] == y;
  }

  lemma LastSlotFilled(opts: seq<LongOption>, args: seq<string>, tail: seq<string>)
    requires args != [] && !IsPositional(args[0]) && args[0] != "--" && ParseSlot(opts, args).missing
    requires tail != [] && forall i :: 0 <= i < |tail| ==> IsPositional(tail[i])
    ensures Results(opts, Taken(opts, args) + tail) != Results(opts, args)
  {
    hide Roles, Select, Taken, Results, ParseSlot, IsPositional, Positionals, RawTail, Following;
    MissingIsLast(opts, args);
    SlotFirst(opts, args);
    NothingSelected(opts);
    NothingParsed(opts);
    var line := Taken(opts, args) + tail;
    assert args[1..] == [] && line == args + tail;
    SlotFilled(opts, args, tail);
    var s, t := ParseSlot(opts, args), ParseSlot(opts, line);
    SlotFirst(opts, line);
    assert line[2..] == tail[1..];
    OnlyPositionals(opts, tail[1..]);
    assert Results(opts, args) == s.results;
    assert Results(opts, line) == t.results;
  }

  lemma MissingIsLast(opts: seq<LongOption>, args: seq<string>)
    requires args != [] && !IsPositional(args[0]) && ParseSlot(opts, args).missing
    ensures |args| == 1
  {
    if !IsLong(args[0]) {
      PackFits(opts, args[0][1..], Following(args));
    }
  }

  lemma SlotFilled(opts: seq<LongOption>, args: seq<string>, tail: seq<string>)
    requires |args| == 1 && !IsPositional(args[0]) && ParseSlot(opts, args).missing && tail != []
    ensures var s, t := ParseSlot(opts, args), ParseSlot(opts, args + tail);
            && |s.results| == |t.results| > 0 && t.width == 2
            && s.results[|s.results| - 1] != t.results[|s.results| - 1]
  {
    var line := args + tail;
    assert line[0] == args[0] && Following(line) == Some(tail[0]);
    if !IsLong(args[0]) {
      PackFilled(opts, args[0][1..], tail[0]);
    }
  }

  lemma {:induction false} LackingNeverStops(opts: seq<LongOption>, args: seq<string>)
    requires LacksArgument(opts, args)
    ensures !Stops(opts, args)
    decreases |args|
  {
    if IsPositional(args[0]) {
      LackingNeverStops(opts, args[1..]);
    } else if ParseSlot(opts, args).missing {
      MissingIsLast(opts, args);
    } else {
      LackingNeverStops(opts, args[ParseSlot(opts, args).width..]);
    }
  }

  lemma {:induction false} NothingMoves(opts: seq<LongOption>, args: seq<string>)
    requires !Stops(opts, args) && Positionals(opts, args) == []
    ensures Taken(opts, args) == args
    decreases |args|
  {
    hide Roles, Select, ParseSlot, Taken, Positionals, RawTail;
    if args == [] {
      NothingSelected(opts);
    } else if IsPositional(args[0]) {
      PositionalFirst(opts, args);
      assert false;
    } else {
      var w := ParseSlot(opts, args).width;
      SlotFirst(opts, args);
      NothingMoves(opts, args[w..]);
    }
  }

  /** Nor does it change anything when no positional is there that the option could take: then
      the line is not permuted at all. */
  lemma RunAgain(opts: seq<LongOption>, args: seq<string>)
    requires !LacksArgument(opts, args) || Positionals(opts, args) == []
    ensures var line := Permuted(opts, args);
            && Results(opts, line) == Results(opts, args)
            && Taken(opts, line) == Taken(opts, args)
            && Permuted(opts, line) == line
            && (NoLoneDash(opts, args) ==> NoLoneDash(opts, line))
  {
    hide Roles, Select, ParseSlot, Taken, Positionals, Results, Stops, RawTail, LacksArgument, NoLoneDash;
    if !LacksArgument(opts, args) {
      RunAgainComplete(opts, args);
    } else {
      LackingNeverStops(opts, args);
      EndState(opts, args);
      NothingMoves(opts, args);
      assert Permuted(opts, args) == args;
    }
  }

  /** A second run has the results of the first exactly when no option lacked its argument, or
      no positional is there for it to take. It then ends with the same index and vector too. */
  lemma RunAgainIff(opts: seq<LongOption>, args: seq<string>)
    ensures Results(opts, Permuted(opts, args)) == Results(opts, args)
       <==> !LacksArgument(opts, args) || Positionals(opts, args) == []
    ensures var line := Permuted(opts, args);
            Results(opts, line) == Results(opts, args) ==>
              Taken(opts, line) == Taken(opts, args) && Permuted(opts, line) == line
  {
    hide Roles, Select, ParseSlot, Taken, Positionals, Results, Stops, RawTail, LacksArgument, NoLoneDash;
    if !LacksArgument(opts, args) || Positionals(opts, args) == [] {
      RunAgain(opts, args);
    } else {
      LackingNeverStops(opts, args);
      EndState(opts, args);
      assert Permuted(opts, args) == Taken(opts, args) + Positionals(opts, args);
      LackingAgain(opts, args, Positionals(opts, args));
    }
  }

  /** It is not the same for an option at the end that wants an argument: here "-o" has none the
      first time, and takes "x" the second time. */
  lemma RunAgainDiffers() returns (opts: seq<LongOption>, args: seq<string>)
    ensures ValidTable(opts) && NoLoneDash(opts, args)
    ensures opts == [LongOption("o", true, 'o' as int)] && args == ["x", "-o"]
    ensures Results(opts, Permuted(opts, args)) != Results(opts, args)
  {
    opts := [LongOption("o", true, 'o' as int)];
    args := ["x", "-o"];
    PositionalFirst(opts, args);
    LastOptionLacks(opts);
    assert args[1..] == ["-o"];
    hide Results, Permuted, Roles, Taken, Positionals, RawTail, ParseSlot;
    RunAgainIff(opts, args);
  }

  lemma LastOptionLacks(opts: seq<LongOption>)
    requires opts == [LongOption("o", true, 'o' as int)]
    ensures LacksArgument(opts, ["-o"]) && NoLoneDash(opts, ["-o"])
  {
    var args := ["-o"];
    assert args[0][1..] == "o" && "o"[1..] == "";
    assert Letter(opts, "o", None) == Item(Result(UNKNOWN, None), 1, 1, true);
    assert Pack(opts, "o", None) == Slot([Result(UNKNOWN, None)], 1, true);
    assert ParseSlot(opts, args) == Slot([Result(UNKNOWN, None)], 1, true);
    assert args[1..] == [];
  }

  // ---- passing over positionals -----------------------------------------------------------

  /** Leading positionals change neither the results nor the roles of what follows. */
  lemma {:induction false} SkipPositionals(opts: seq<LongOption>, args: seq<string>, k: nat)
    requires k <= |args| && forall i :: 0 <= i < k ==> IsPositional(args[i])
    ensures Results(opts, args) == Results(opts, args[k..])
    ensures Roles(opts, args) == Repeat(Skipped, k) + Roles(opts, args[k..])
    ensures NoLoneDash(opts, args) == NoLoneDash(opts, args[k..])
    ensures Stops(opts, args) == Stops(opts, args[k..])
    decreases k
  {
    hide Results, Roles, NoLoneDash, Stops, IsPositional, Taken, Positionals, RawTail;
    if k == 0 {
      assert args[k..] == args;
    } else {
      assert args[1..][k - 1..] == args[k..];
      PositionalFirst(opts, args);
      SkipPositionals(opts, args[1..], k - 1);
      assert [Skipped] + Repeat(Skipped, k - 1) == Repeat(Skipped, k);
    }
  }
}
