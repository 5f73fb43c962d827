/** The parser of getopt/optparser.cpp, which rewrites its argument vector between calls,
    held to the left-to-right reading of the vector it was given.
 */
module OptParser {
  import opened Wrappers
  import opened Sequences
  import opened OptionGrammar
  import opened OptionProofs
  import OptionWords

  /** What a vector looks like when slots idx..idx+n have been moved down to `last`. */
  function Rotated(s: seq<string>, last: nat, idx: nat, n: nat): (r: seq<string>)
    requires last <= idx && idx + n <= |s|
    ensures |r| == |s|
  {
    s[..last] + s[idx..idx + n] + s[last..idx] + s[idx + n..]
  }

  /** memmove: the source is read as a whole before anything is written. */
  method MemMove(dst: array<string>, d: nat, src: array<string>, s: nat, n: nat)
    requires d + n <= dst.Length && s + n <= src.Length
    modifies dst
    ensures dst[..] == Overwrite(old(dst[..]), d, old(src[s..s + n]))
  {
    forall i | 0 <= i < n {
      dst[d + i] := src[s + i];
    }
  }

  /** The results that are still to come from a slot of which `pos` characters have been read,
      and from everything behind it. */
  function Remaining(opts: seq<LongOption>, args: seq<string>, pos: nat): seq<Result>
    requires pos > 0 ==> InPack(args, pos)
  {
    if pos == 0 then Results(opts, args)
    else
      PackFits(opts, args[0][pos..], Following(args));
      var slot := Pack(opts, args[0][pos..], Following(args));
      slot.results + Results(opts, args[slot.width..])
  }

  /** Position `pos` is in the middle of a pack of short options. */
  predicate InPack(args: seq<string>, pos: nat) {
    args != [] && !IsPositional(args[0]) && !IsLong(args[0]) && 1 <= pos < |args[0]|
  }

  // ---- the vector as values ------------------------------------------------------------

  /** At every reachable state: the program name, the slots taken so far in their order, the
      positionals passed over in their order, and the rest as it was. */
  ghost predicate Partition(opts: seq<LongOption>, original: seq<string>, line: seq<string>,
                            last: int, front: int, roles: seq<Role>)
  {
    && |line| == |original| && 1 <= last <= front <= |line|
    && |roles| == front - 1 && Raw !in roles
    && line[0] == original[0]
    && line[1..last] == Select(original[1..front], roles, Consumed)
    && line[last..front] == Select(original[1..front], roles, Skipped)
    && line[front..] == original[front..]
    && (forall i :: last <= i < front ==> IsPositional(line[i]))
    && Roles(opts, original[1..]) == roles + Roles(opts, original[front..])
  }

  lemma PartitionStart(opts: seq<LongOption>, original: seq<string>)
    requires original != []
    ensures Partition(opts, original, original, 1, 1, [])
  {
    assert original[1..1] == [];
  }

  /** What the slots of one kind add to the taken and the passed-over ones. */
  lemma SelectMore(original: seq<string>, front: nat, idx: nat, roles: seq<Role>, q: Role)
    requires 1 <= front <= idx <= |original| && |roles| == front - 1
    ensures var more := roles + Repeat(q, idx - front);
            && Select(original[1..idx], more, Consumed)
               == Select(original[1..front], roles, Consumed) + (if q == Consumed then original[front..idx] else [])
            && Select(original[1..idx], more, Skipped)
               == Select(original[1..front], roles, Skipped) + (if q == Skipped then original[front..idx] else [])
  {
    hide Select, Repeat;
    SliceSplit(original, 1, front, idx);
    SelectLast(original[1..front], roles, original[front..idx], q);
  }

  lemma Regroup(a: seq<Role>, b: seq<Role>, c: seq<Role>)
    ensures a + b + c == a + (b + c)
  {
  }

  lemma PassedOver(original: seq<string>, line: seq<string>, front: nat, idx: nat)
    requires front <= idx <= |line| == |original| && line[front..] == original[front..]
    requires forall i :: front <= i < idx ==> IsPositional(line[i])
    ensures forall i :: 0 <= i < idx - front ==> IsPositional(original[front..][i])
  {
    hide IsPositional;
    assert forall i :: 0 <= i < idx - front ==> original[front..][i] == line[front..][i] == line[front + i];
  }

  /** Passing over positionals. */
  lemma PartitionSkip(opts: seq<LongOption>, original: seq<string>, line: seq<string>,
                      last: int, front: int, roles: seq<Role>, idx: int)
    requires Partition(opts, original, line, last, front, roles)
    requires front <= idx <= |line| && forall i :: front <= i < idx ==> IsPositional(line[i])
    ensures Partition(opts, original, line, last, idx, roles + Repeat(Skipped, idx - front))
    ensures Results(opts, original[front..]) == Results(opts, original[idx..])
    ensures NoLoneDash(opts, original[front..]) == NoLoneDash(opts, original[idx..])
  {
    hide Select, Roles, Results, NoLoneDash, IsPositional;
    hide Repeat;
    SliceTail(original, front, idx);
    SliceTail(line, front, idx);
    SliceHead(original, front, idx);
    SliceHead(line, front, idx);
    SliceSplit(line, last, front, idx);
    PassedOver(original, line, front, idx);
    SkipPositionals(opts, original[front..], idx - front);
    SelectMore(original, front, idx, roles, Skipped);
    Regroup(roles, Repeat(Skipped, idx - front), Roles(opts, original[idx..]));
  }

  /** Taking the `n` slots at the front. */
  lemma PartitionTake(opts: seq<LongOption>, original: seq<string>, line: seq<string>,
                      last: int, front: int, roles: seq<Role>, n: nat)
    requires Partition(opts, original, line, last, front, roles)
    requires front + n <= |line|
    requires Roles(opts, original[front..]) == Repeat(Consumed, n) + Roles(opts, original[front..][n..])
    ensures Partition(opts, original, Rotated(line, last, front, n), last + n, front + n,
                      roles + Repeat(Consumed, n))
  {
    hide Select, Roles, IsPositional, Rotated, Repeat;
    var line' := Rotated(line, last, front, n);
    SliceTail(original, front, front + n);
    SliceTail(line, front, front + n);
    SliceHead(original, front, front + n);
    SliceHead(line, front, front + n);
    SelectMore(original, front, front + n, roles, Consumed);
    RotatedParts(line, last, front, n);
    forall i | last + n <= i < front + n
      ensures IsPositional(line'[i])
    {
      assert line'[i] == line'[last + n..front + n][i - last - n] == line[last..front][i - last - n];
    }
    Regroup(roles, Repeat(Consumed, n), Roles(opts, original[front + n..]));
  }

  lemma RotatedParts(s: seq<string>, last: nat, idx: nat, n: nat)
    requires 1 <= last <= idx && idx + n <= |s|
    ensures var r := Rotated(s, last, idx, n);
            && r[0] == s[0]
            && r[1..last + n] == s[1..last] + s[idx..idx + n]
            && r[last + n..idx + n] == s[last..idx]
            && r[idx + n..] == s[idx + n..]
  {
  }

  lemma Concatenated(x: seq<string>, y: seq<string>, k: nat)
    requires k <= |x|
    ensures (x + y)[|x|..] == y && (x + y)[..k] == x[..k]
  {
  }

  /** What the moves through the save buffer amount to. */
  lemma TwoMoves(s: seq<string>, last: nat, idx: nat, n: nat)
    requires last <= idx && idx + n <= |s|
    ensures Overwrite(Overwrite(s, last + n, s[last..idx]), last, s[idx..idx + n]) == Rotated(s, last, idx, n)
    ensures last == idx ==> Rotated(s, last, idx, n) == s
  {
    var front, skipped, behind := s[..last + n], s[last..idx], s[idx + n..];
    var moved := Overwrite(s, last + n, skipped);
    assert moved == front + (skipped + behind);
    Concatenated(front, skipped + behind, last);
    assert front[..last] == s[..last];
    Regrouped(s[..last], s[idx..idx + n], skipped, behind);
  }

  lemma Regrouped(a: seq<string>, b: seq<string>, c: seq<string>, d: seq<string>)
    ensures a + b + (c + d) == a + b + c + d
  {
  }

  lemma Saved(save: seq<string>, with: seq<string>)
    requires |with| <= |save|
    ensures Overwrite(save, 0, with)[0..|with|] == with
  {
  }

  /** The vector when everything has been read. */
  lemma PartitionEnd(opts: seq<LongOption>, original: seq<string>, line: seq<string>,
                     last: int, roles: seq<Role>)
    requires Partition(opts, original, line, last, |line|, roles)
    ensures line == [original[0]] + Permuted(opts, original[1..])
    ensures last == 1 + |Taken(opts, original[1..])|
  {
    hide Select, Roles;
    var n := |line|;
    assert original[1..n] == original[1..] && original[n..] == [];
    NothingParsed(opts);
    assert Roles(opts, original[1..]) == roles;
    NoneSelected(original[1..], roles, Raw);
    assert line == [line[0]] + line[1..last] + line[last..n];
  }

  /** At every reachable state the vector is a permutation of the given one. */
  lemma PartitionIsPermutation(opts: seq<LongOption>, original: seq<string>, line: seq<string>,
                               last: int, front: int, roles: seq<Role>)
    requires Partition(opts, original, line, last, front, roles)
    ensures multiset(line) == multiset(original)
  {
    hide Select, Roles, IsPositional;
    SelectCounts(original[1..front], roles);
    NoneSelected(original[1..front], roles, Raw);
    assert line == [line[0]] + line[1..last] + line[last..front] + line[front..];
    assert original == [original[0]] + original[1..front] + original[front..];
  }

  lemma {:induction false} NoneSelected(a: seq<string>, roles: seq<Role>, r: Role)
    requires |a| == |roles| && r !in roles
    ensures Select(a, roles, r) == []
    decreases |a|
  {
    if a != [] {
      NoneSelected(a[1..], roles[1..], r);
    }
  }

  /** The vector when "--" has been taken. */
  lemma PartitionStop(opts: seq<LongOption>, original: seq<string>, line: seq<string>,
                      last: int, front: int, roles: seq<Role>)
    requires Partition(opts, original, line, last, front, roles)
    requires front < |line| && original[front] == "--"
    ensures Rotated(line, last, front, 1) == [original[0]] + Permuted(opts, original[1..])
    ensures last + 1 == 1 + |Taken(opts, original[1..])|
  {
    hide Select, Roles, Rotated;
    var rest := original[front..];
    StopSelects(opts, original, front, roles);
    RotatedParts(line, last, front, 1);
    SliceHead(line, front, front + 1);
    SliceTail(line, front, front + 1);
    var line' := Rotated(line, last, front, 1);
    assert line[front..front + 1] == rest[..1] == ["--"];
    assert line' == [line'[0]] + line'[1..last + 1] + line'[last + 1..front + 1] + line'[front + 1..];
  }

  lemma StopSelects(opts: seq<LongOption>, original: seq<string>, front: nat, roles: seq<Role>)
    requires 1 <= front < |original| && original[front] == "--"
    requires |roles| == front - 1 && Raw !in roles
    requires Roles(opts, original[1..]) == roles + Roles(opts, original[front..])
    ensures Taken(opts, original[1..]) == Select(original[1..front], roles, Consumed) + ["--"]
    ensures Positionals(opts, original[1..]) == Select(original[1..front], roles, Skipped)
    ensures RawTail(opts, original[1..]) == original[front..][1..]
  {
    hide Select, Roles;
    var rest := original[front..];
    StopFirst(opts, rest);
    NoneSelected(original[1..front], roles, Raw);
    assert original[1..] == original[1..front] + rest;
    SelectAppend(original[1..front], roles, rest, Roles(opts, rest), Consumed);
    SelectAppend(original[1..front], roles, rest, Roles(opts, rest), Skipped);
    SelectAppend(original[1..front], roles, rest, Roles(opts, rest), Raw);
  }

  // ---- results still to come -------------------------------------------------------------

  lemma PackUnfold(opts: seq<LongOption>, pack: string, f: Option<string>)
    requires pack != ""
    ensures var item := Letter(opts, pack, f);
            var rest := Pack(opts, pack[item.used..], f);
            Pack(opts, pack, f) == Slot([item.result] + rest.results,
                                        if item.width == 2 then 2 else rest.width,
                                        item.missing || rest.missing)
    ensures Pack(opts, "", f) == Slot([], 1, false)
  {
  }

  lemma LetterUses(opts: seq<LongOption>, pack: string, f: Option<string>)
    requires pack != ""
    ensures var item := Letter(opts, pack, f);
            item.used == |pack| || (item.used == 1 && item.width == 1)
  {
  }

  lemma InPackFacts(args: seq<string>, pos: nat)
    requires InPack(args, pos)
    ensures args != [] && 1 <= pos < |args[0]| && !IsPositional(args[0]) && !IsLong(args[0]) && args[0] != "--"
    ensures forall p :: pos <= p < |args[0]| ==> InPack(args, p)
  {
  }

  /** Reading one letter of a pack. */
  lemma PackStep(opts: seq<LongOption>, args: seq<string>, pos: nat)
    requires pos > 0 && InPack(args, pos)
    ensures pos < |args[0]|
    ensures var item := Letter(opts, args[0][pos..], Following(args));
            var slot := Pack(opts, args[0][pos..], Following(args));
            && item.width <= |args|
            && (if pos + item.used == |args[0]|
                then && Remaining(opts, args, pos) == [item.result] + Results(opts, args[item.width..])
                     && slot.width == item.width
                else && InPack(args, pos + item.used) && item.used == 1 && item.width == 1
                     && Remaining(opts, args, pos) == [item.result] + Remaining(opts, args, pos + item.used)
                     && slot.width == Pack(opts, args[0][pos + item.used..], Following(args)).width)
  {
    hide Results, Letter, Pack, InPack, IsPositional, IsLong;
    InPackFacts(args, pos);
    var pack, f := args[0][pos..], Following(args);
    var item := Letter(opts, pack, f);
    LetterUses(opts, pack, f);
    PackUnfold(opts, pack, f);
    SliceTail(args[0], pos, pos + item.used);
    PackFits(opts, pack, f);
    PackFits(opts, pack[item.used..], f);
    if pos + item.used == |args[0]| {
      assert pack[item.used..] == "";
    } else {
      assert Remaining(opts, args, pos + item.used)
          == Pack(opts, pack[item.used..], f).results
             + Results(opts, args[Pack(opts, pack[item.used..], f).width..]);
    }
  }

  lemma RemainingFromSlot(opts: seq<LongOption>, args: seq<string>)
    ensures Remaining(opts, args, 0) == Results(opts, args)
  {
  }

  lemma GiveOne(given: seq<Result>, r: Result, rest: seq<Result>)
    ensures given + ([r] + rest) == given + [r] + rest
  {
  }

  /** Starting on a pack, at its first letter. */
  lemma PackStart(opts: seq<LongOption>, args: seq<string>)
    requires args != [] && !IsPositional(args[0]) && !IsLong(args[0]) && NoLoneDash(opts, args)
    ensures InPack(args, 1) && Results(opts, args) == Remaining(opts, args, 1)
    ensures ParseSlot(opts, args).width == Pack(opts, args[0][1..], Following(args)).width
  {
    LoneDash(args[0]);
  }

  lemma LoneDash(arg: string)
    ensures !IsPositional(arg) && |arg| < 2 ==> arg == "-"
  {
  }

  /** Reading a long option. */
  lemma LongStep(opts: seq<LongOption>, args: seq<string>)
    requires ValidTable(opts) && args != [] && IsLong(args[0])
    ensures var item := Long(opts, args[0], Following(args));
            && item.width <= |args|
            && (if args[0] == "--"
                then item.result == Result(UNKNOWN, None) && item.width == 1 && Results(opts, args) == []
                else Results(opts, args) == [item.result] + Results(opts, args[item.width..])
                     && ParseSlot(opts, args).width == item.width)
  {
    if args[0] == "--" {
      assert LongName(args[0]) == "";
      NamelessOption(opts);
    }
  }

  lemma {:induction false} NamelessOption(opts: seq<LongOption>)
    requires ValidTable(opts)
    ensures FindLong(opts, "") == None
    decreases |opts|
  {
    if opts != [] {
      NamelessOption(opts[1..]);
    }
  }

  /** No option is mistaken for the end of the run. */
  lemma NeverEnd(opts: seq<LongOption>)
    requires ValidTable(opts)
    ensures forall arg: string, f | IsLong(arg) :: Long(opts, arg, f).result.code != END
    ensures forall pack: string, f | pack != "" :: Letter(opts, pack, f).result.code != END
  {
    forall arg: string, f | IsLong(arg)
      ensures Long(opts, arg, f).result.code != END
    {
      FoundInTable(opts, LongName(arg), ' ');
    }
    forall pack: string, f | pack != ""
      ensures Letter(opts, pack, f).result.code != END
    {
      FoundInTable(opts, "", pack[0]);
    }
  }

  lemma {:induction false} FoundInTable(opts: seq<LongOption>, name: string, c: char)
    ensures var o := FindLong(opts, name); o.Some? ==> o.value in opts
    ensures var o := FindShort(opts, c); o.Some? ==> o.value in opts
    decreases |opts|
  {
    if opts != [] {
      FoundInTable(opts[1..], name, c);
    }
  }

  lemma NextSlot(opts: seq<LongOption>, args: seq<string>)
    requires args != [] && !IsPositional(args[0]) && args[0] != "--" && NoLoneDash(opts, args)
    ensures NoLoneDash(opts, args[ParseSlot(opts, args).width..])
  {
  }

  lemma PartitionFront(opts: seq<LongOption>, original: seq<string>, line: seq<string>,
                       last: int, front: int, roles: seq<Role>)
    requires Partition(opts, original, line, last, front, roles)
    ensures |line| == |original| && 1 <= last <= front <= |line| && line[front..] == original[front..]
  {
  }

  class Parser {
    var argc: int
    var argv: array<string>
    var lastarg: int
    var optind: int
    var optpos: int
    var optarg: Option<string>
    var options: seq<LongOption>

    // The vector as it was given, how far it has been read, the part each slot read so far
    // plays, and the results given so far.
    ghost var original: seq<string>
    ghost var front: nat
    ghost var roles: seq<Role>
    ghost var given: seq<Result>

    /** The vector is partitioned, and the results given and those to come make up a run. */
    ghost predicate Reading()
      reads this, argv
    {
      && argv.Length == argc
      && Partition(options, original, argv[..], lastarg, front, roles)
      && ValidTable(options)
      && (optpos != 0 ==>
            && optpos > 0 && InPack(original[front..], optpos)
            && ParseSlot(options, original[front..]).width
               == Pack(options, original[front][optpos..], Following(original[front..])).width)
      && Results(options, original[1..]) == given + Remaining(options, original[front..], optpos)
      && NoLoneDash(options, original[front..])
    }

    /** Between calls. */
    ghost predicate Valid()
      reads this, argv
    {
      && Reading()
      && (if optpos == 0 then optind == lastarg else optind == front && optpos > 1)
    }

    /** The state in which a run ends. */
    ghost predicate Finished()
      reads this, argv
    {
      && original != []
      && argv[..] == [original[0]] + Permuted(options, original[1..])
      && optind == 1 + |Taken(options, original[1..])|
      && given == Results(options, original[1..])
    }

    /** Between calls: the indices are in order and in bounds; outside a pack the current option
        is the next one to compact, and inside a pack its slot has not moved and the position is
        behind its first letter and before its end; the vector is a permutation of the given one. */
    lemma StateSafety()
      requires Valid()
      ensures argc == argv.Length == |original| && 1 <= lastarg <= optind <= argc
      ensures optpos == 0 ==> optind == lastarg
      ensures optpos != 0 ==>
                && optind < argc && argv[optind] == original[optind]
                && !IsPositional(argv[optind]) && !IsLong(argv[optind]) && 1 < optpos < |argv[optind]|
      ensures multiset(argv[..]) == multiset(original)
    {
      hide Partition, Results, NoLoneDash, ParseSlot, Pack, Roles, ValidTable, Remaining;
      PartitionFront(options, original, argv[..], lastarg, front, roles);
      PartitionIsPermutation(options, original, argv[..], lastarg, front, roles);
      if optpos != 0 {
        assert argv[optind] == argv[..][front..][0] == original[front..][0];
      }
    }

    constructor ()
    {
      argc := 0;
      argv := new string[0];
      lastarg := 0;
      optind := 0;
      optpos := 0;
      optarg := None;
      options := [];
    }

    /** optparser::reset. */
    method Reset(argc: int, argv: array<string>, opts: seq<LongOption>)
      requires 1 <= argc == argv.Length
      requires ValidTable(opts) && NoLoneDash(opts, argv[1..])
      modifies this
      ensures Valid() && this.argv == argv && options == opts
      ensures original == argv[..] && given == [] && optpos == 0
    {
      hide Partition, Results, NoLoneDash, ParseSlot, Pack, Letter, Roles, ValidTable, InPack, Remaining;
      RemainingFromSlot(opts, argv[1..]);
      this.argc := argc;
      this.argv := argv;
      lastarg := 1;
      optind := 1;
      optpos := 0;
      optarg := None;
      options := opts;
      original := argv[..];
      front := 1;
      roles := [];
      given := [];
      PartitionStart(opts, argv[..]);
    }

    /** The option table search of optparser::next, for a long option. */
    method ResolveLong(arg: string, idx: int)
      returns (code: int, foundarg: Option<string>, npos: int)
      requires argv.Length == argc && 0 <= idx < argc && argv[idx] == arg && IsLong(arg)
      ensures var item := Long(options, arg, Following(argv[idx..]));
              Result(code, foundarg) == item.result && npos == item.width
    {
      code, foundarg, npos := UNKNOWN, None, 1;
      assert Following(argv[idx..]) == if idx + 1 < argc then Some(argv[idx + 1]) else None;
      var o := 0;
      var eq := 2 + IndexOf(arg[2..], '=');
      while o < |options|
        invariant 0 <= o <= |options|
        invariant FindLong(options, LongName(arg)) == FindLong(options[o..], LongName(arg))
        invariant code == UNKNOWN && foundarg == None && npos == 1
      {
        var opt := options[o];
        if opt.name != arg[2..eq] {
          o := o + 1;
          continue;
        }
        if eq < |arg| {
          foundarg := Some(arg[eq + 1..]);
        }
        if opt.hasArg && foundarg.None? {
          if idx + 1 >= argc {
            return;
          }
          npos := npos + 1;
          foundarg := Some(argv[idx + 1]);
        }
        code := opt.shopt;
        return;
      }
    }

    /** The same for the letter at `pos` of a pack; `pos'` is _optpos after the search. */
    method ResolveShort(arg: string, idx: int, pos: nat)
      returns (code: int, foundarg: Option<string>, npos: int, pos': int)
      requires argv.Length == argc && 0 <= idx < argc && argv[idx] == arg && pos < |arg|
      ensures var item := Letter(options, arg[pos..], Following(argv[idx..]));
              && Result(code, foundarg) == item.result && npos == item.width
              && (if pos' == -1 then item.used == |arg| - pos else pos' == pos && item.used == 1)
    {
      code, foundarg, npos, pos' := UNKNOWN, None, 1, pos;
      assert Following(argv[idx..]) == if idx + 1 < argc then Some(argv[idx + 1]) else None;
      var o := 0;
      while o < |options|
        invariant 0 <= o <= |options|
        invariant FindShort(options, arg[pos]) == FindShort(options[o..], arg[pos])
        invariant code == UNKNOWN && foundarg == None && npos == 1 && pos' == pos
      {
        var opt := options[o];
        if arg[pos] as int != opt.shopt {
          o := o + 1;
          continue;
        }
        if opt.hasArg && pos + 1 < |arg| {
          foundarg := Some(arg[pos + 1..]);
          pos' := -1;
        }
        if opt.hasArg && foundarg.None? {
          if idx + 1 >= argc {
            return;
          }
          npos := npos + 1;
          foundarg := Some(argv[idx + 1]);
        }
        code := opt.shopt;
        return;
      }
    }

    /** The two memmoves through the save buffer move `npos` slots down to the last option. */
    method Compact(idx: int, npos: int)
      requires 1 <= lastarg <= idx && 1 <= npos <= 2 && idx + npos <= argv.Length
      modifies argv
      ensures argv[..] == Rotated(old(argv[..]), lastarg, idx, npos)
    {
      hide Rotated, Overwrite;
      ghost var line := argv[..];
      TwoMoves(line, lastarg, idx, npos);
      if idx != lastarg {
        var save := new string[2];
        ghost var blank := save[..];
        MemMove(save, 0, argv, idx, npos);
        Saved(blank, line[idx..idx + npos]);
        assert save[0..npos] == save[..][0..npos];
        MemMove(argv, lastarg + npos, argv, lastarg, idx - lastarg);
        MemMove(argv, lastarg, save, 0, npos);
      }
    }

    /** The loop of optparser::next over positionals. */
    method Scan() returns (idx: int)
      requires Valid() && optpos == 0
      modifies `front, `roles
      ensures Valid() && front == idx && (idx < argc ==> !IsPositional(argv[idx]))
    {
      hide Select, Roles, Results, NoLoneDash, ParseSlot, Pack;
      idx := optind;
      while idx < argc && IsPositional(argv[idx])
        invariant lastarg <= idx <= argc
        invariant forall i :: lastarg <= i < idx ==> IsPositional(argv[i])
      {
        idx := idx + 1;
      }
      assert front <= idx;
      PartitionSkip(options, original, argv[..], lastarg, front, roles, idx);
      roles := roles + Repeat(Skipped, idx - front);
      front := idx;
    }

    /** The end of optparser::next for a slot that has been read to its end. */
    method FinishSlot(idx: int, npos: int)
      requires argv.Length == argc && idx == front < argc
      requires Partition(options, original, argv[..], lastarg, front, roles)
      requires var args := original[front..];
               && !IsPositional(args[0]) && args[0] != "--"
               && npos == ParseSlot(options, args).width && NoLoneDash(options, args)
      modifies `optpos, `lastarg, `optind, `front, `roles, argv
      ensures optpos == 0 && optind == lastarg
      ensures Partition(options, original, argv[..], lastarg, front, roles)
      ensures front == old(front) + npos <= |original| && NoLoneDash(options, original[front..])
    {
      hide Partition, NoLoneDash, ParseSlot, Rotated, Roles, Results, Taken, Positionals, RawTail, Repeat;
      hide IsPositional;
      PartitionFront(options, original, argv[..], lastarg, front, roles);
      ghost var args := original[front..];
      SlotFirst(options, args);
      NextSlot(options, args);
      PartitionTake(options, original, argv[..], lastarg, front, roles, npos);
      SliceTail(original, front, front + npos);
      optpos := 0;
      Compact(idx, npos);
      lastarg := lastarg + npos;
      optind := lastarg;
      roles := roles + Repeat(Consumed, npos);
      front := front + npos;
    }

    /** The same for "--", which ends the run. */
    method FinishStop(idx: int)
      requires argv.Length == argc == |original| && idx == front < argc && original[front] == "--"
      requires Partition(options, original, argv[..], lastarg, front, roles)
      requires given == Results(options, original[1..])
      modifies `optpos, `lastarg, `optind, argv
      ensures Finished()
    {
      hide Partition, Rotated, Roles, Results;
      PartitionFront(options, original, argv[..], lastarg, front, roles);
      PartitionStop(options, original, argv[..], lastarg, front, roles);
      optpos := 0;
      Compact(idx, 1);
      lastarg := lastarg + 1;
      optind := lastarg;
    }

    /** optparser::next at a long option. */
    method NextLong(idx: int) returns (r: int)
      requires Valid() && optpos == 0 && idx == front < argc && IsLong(argv[idx])
      modifies this, argv
      ensures argv == old(argv) && options == old(options) && original == old(original)
      ensures if r == END
              then Finished() && given == old(given) && optarg == None
              else Valid() && given == old(given) + [Result(r, optarg)]
    {
      hide Partition, Results, NoLoneDash, ParseSlot, Pack, Letter, Long, Permuted, Taken, Roles;
      PartitionFront(options, original, argv[..], lastarg, front, roles);
      ghost var args := original[front..];
      var arg := argv[idx];
      assert argv[idx..] == args && args[0] == arg;
      LongStep(options, args);
      NeverEnd(options);
      var foundarg, npos;
      r, foundarg, npos := ResolveLong(arg, idx);
      if |arg| == 2 {
        assert arg == "--";
        FinishStop(idx);
        optarg := foundarg;
        return END;
      }
      FinishSlot(idx, npos);
      SliceTail(original, idx, front);
      optarg := foundarg;
      given := given + [Result(r, optarg)];
    }

    /** optparser::next at a short option, or in the middle of a pack of them. */
    method NextShort(idx: int) returns (r: int)
      requires Valid() && idx == front < argc && !IsPositional(argv[idx]) && !IsLong(argv[idx])
      modifies this, argv
      ensures argv == old(argv) && options == old(options) && original == old(original)
      ensures r != END && Valid() && given == old(given) + [Result(r, optarg)]
    {
      hide Partition, Results, NoLoneDash, ParseSlot, Pack, Roles, Following, ValidTable;
      PartitionFront(options, original, argv[..], lastarg, front, roles);
      assert argv[idx] == argv[idx..][0] == original[front..][0];
      if optpos == 0 {
        PackStart(options, original[front..]);
        optpos := 1;
      }
      r := NextLetter(idx);
    }

    /** The end of a slot whose last letter has been read; `sofar` has the result of that letter. */
    method FinishPack(idx: int, npos: int, ghost sofar: seq<Result>)
      requires argv.Length == argc && idx == front < argc
      requires Partition(options, original, argv[..], lastarg, front, roles)
      requires var args := original[front..];
               && !IsPositional(args[0]) && args[0] != "--"
               && npos == ParseSlot(options, args).width <= |args| && NoLoneDash(options, args)
               && Results(options, original[1..]) == sofar + Results(options, args[npos..])
      modifies `optpos, `lastarg, `optind, `front, `roles, argv
      ensures optpos == 0 && optind == lastarg && front <= |original|
      ensures Partition(options, original, argv[..], lastarg, front, roles)
      ensures NoLoneDash(options, original[front..])
      ensures Results(options, original[1..]) == sofar + Remaining(options, original[front..], optpos)
    {
      hide Partition, Results, NoLoneDash, ParseSlot, Remaining, IsPositional;
      FinishSlot(idx, npos);
      SliceTail(original, idx, front);
      RemainingFromSlot(options, original[front..]);
    }

    /** The letter at the position in the pack: its result, the slots it uses, and the position
        behind it, which is 0 after an attached argument. */
    method ReadLetter(idx: int) returns (r: int, foundarg: Option<string>, npos: int)
      requires Reading() && optpos > 0 && idx == front < argc
      modifies `optpos
      ensures r != END
      ensures var args, sofar := original[front..], given + [Result(r, foundarg)];
              && !IsPositional(args[0]) && args[0] != "--"
              && (if optpos == 0 || optpos == |argv[idx]|
                  then && npos == ParseSlot(options, args).width <= |args|
                       && Results(options, original[1..]) == sofar + Results(options, args[npos..])
                  else && optpos > 1 && InPack(args, optpos)
                       && ParseSlot(options, args).width == Pack(options, args[0][optpos..], Following(args)).width
                       && Results(options, original[1..]) == sofar + Remaining(options, args, optpos))
    {
      hide Partition, Results, NoLoneDash, ParseSlot, Pack, Letter, Roles, Following, ValidTable;
      hide InPack, IsPositional, IsLong, Remaining, WithArgument;
      PartitionFront(options, original, argv[..], lastarg, front, roles);
      ghost var args := original[front..];
      var arg := argv[idx];
      assert argv[idx..] == args && args[0] == arg;
      InPackFacts(args, optpos);
      PackStep(options, args, optpos);
      NeverEnd(options);
      r, foundarg, npos, optpos := ResolveShort(arg, idx, optpos);
      optpos := optpos + 1;
      GiveOne(given, Result(r, foundarg),
              if optpos == 0 || optpos == |arg| then Results(options, args[npos..])
              else Remaining(options, args, optpos));
    }

    method NextLetter(idx: int) returns (r: int)
      requires Reading() && optpos > 0 && idx == front < argc
      modifies this, argv
      ensures argv == old(argv) && options == old(options) && original == old(original)
      ensures r != END && Valid() && given == old(given) + [Result(r, optarg)]
    {
      hide Partition, Results, NoLoneDash, ParseSlot, Pack, Roles, Following, ValidTable;
      hide InPack, IsPositional, Remaining;
      PartitionFront(options, original, argv[..], lastarg, front, roles);
      assert original[front..][0] == original[front];
      var foundarg, npos;
      r, foundarg, npos := ReadLetter(idx);
      optind := idx;
      ghost var sofar := given + [Result(r, foundarg)];
      if optpos == 0 || optpos == |argv[idx]| {
        FinishPack(idx, npos, sofar);
      }
      optarg := foundarg;
      given := sofar;
    }

    /** optparser::next. */
    method Next() returns (r: int)
      requires Valid()
      modifies this, argv
      ensures argv == old(argv) && options == old(options) && original == old(original)
      ensures if r == -1
              then Finished() && given == old(given) && optarg == None
              else Valid() && given == old(given) + [Result(r, optarg)]
    {
      hide Partition, Results, NoLoneDash, ParseSlot, Pack, Letter, Permuted, Taken, Roles;
      var idx := optind;
      if optpos == 0 {
        idx := Scan();
      }
      PartitionFront(options, original, argv[..], lastarg, front, roles);
      if idx == argc {
        PartitionEnd(options, original, argv[..], lastarg, roles);
        NothingParsed(options);
        assert original[front..] == [];
        optarg := None;
        return END;
      }
      assert argv[idx] == argv[idx..][0] == original[front..][0];
      if |argv[idx]| > 1 && argv[idx][1] == '-' {
        r := NextLong(idx);
      } else {
        r := NextShort(idx);
      }
    }
  }

  /** A run: reset, then next until it first returns -1. However the vector is rewritten in
      between, the results are those of reading the given vector from left to right. */
  method Run(p: Parser, argc: int, argv: array<string>, opts: seq<LongOption>)
    returns (results: seq<Result>)
    requires 1 <= argc == argv.Length
    requires ValidTable(opts) && NoLoneDash(opts, argv[1..])
    modifies p, argv
    ensures p.argv == argv && results == Results(opts, old(argv[1..]))
    ensures argv[..] == [old(argv[0])] + Permuted(opts, old(argv[1..]))
    ensures p.optind == 1 + |Taken(opts, old(argv[1..]))|
  {
    hide Results, NoLoneDash, Permuted, Taken;
    results := [];
    p.Reset(argc, argv, opts);
    ghost var line := argv[..];
    assert line[1..] == argv[1..];
    while true
      invariant p.Valid() && p.argv == argv && p.options == opts && p.original == line
      invariant p.given == results
      decreases |Results(opts, line[1..])| - |results|
    {
      var code := p.Next();
      if code == END {
        return;
      }
      results := results + [Result(code, p.optarg)];
    }
  }

  /** A run over a line that the user has written: it reports what was written, leaves the slots of
      the options in front, then the operands, then what stood behind "--", and the index behind
      the options. OptionWords.WrittenIff says that every line is such a line. */
  method RunWritten(p: Parser, argc: int, argv: array<string>, opts: seq<LongOption>,
                    ghost words: seq<OptionWords.Word>)
    returns (results: seq<Result>)
    requires 1 <= argc == argv.Length
    requires ValidTable(opts) && OptionWords.CorrectLine(opts, words)
    requires argv[1..] == OptionWords.Read(opts, words).line
    modifies p, argv
    ensures var read := OptionWords.Read(opts, words);
            && p.argv == argv && results == read.results
            && argv[..] == [old(argv[0])] + (read.options + read.operands + read.tail)
            && p.optind == 1 + |read.options|
  {
    hide Results, NoLoneDash, Taken, Positionals, RawTail, LacksArgument, OptionWords.Read, OptionWords.CorrectLine;
    OptionWords.WrittenIsRead(opts, words);
    results := Run(p, argc, argv, opts);
  }

  /** Running again on the vector that a run has left gives the same results and the same
      final index, and moves nothing, when no option lacked its argument or no positional is
      there for it to take. OptionProofs.RunAgainIff says that otherwise the results differ. */
  method RunTwice(p: Parser, argc: int, argv: array<string>, opts: seq<LongOption>)
    returns (first: seq<Result>, second: seq<Result>)
    requires 1 <= argc == argv.Length
    requires ValidTable(opts) && NoLoneDash(opts, argv[1..])
    requires !LacksArgument(opts, argv[1..]) || Positionals(opts, argv[1..]) == []
    modifies p, argv
    ensures first == second == Results(opts, old(argv[1..]))
    ensures argv[..] == [old(argv[0])] + Permuted(opts, old(argv[1..]))
    ensures p.optind == 1 + |Taken(opts, old(argv[1..]))|
  {
    hide Results, NoLoneDash, Permuted, Taken, Positionals, LacksArgument;
    ghost var args := argv[1..];
    RunAgain(opts, args);
    first := Run(p, argc, argv, opts);
    ghost var line := argv[1..];
    assert line == argv[..][1..] == Permuted(opts, args);
    second := Run(p, argc, argv, opts);
  }
}
