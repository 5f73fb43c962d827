/** What a command line means to the option parser, read from left to right without moving
    anything: the results it gives, and the part each slot plays.

    Strings stand for C strings without their terminator, so a character of a C string is
    zero exactly at position `|s|`.
 */
module OptionGrammar {
  import opened Wrappers
  import opened Sequences

  /** One row of the option table of getopt/optparser.h. */
  datatype LongOption = LongOption(name: string, hasArg: bool, shopt: int)

  /** What one call returns: the option code, and the argument left in _optarg. */
  datatype Result = Result(code: int, arg: Option<string>)

  const UNKNOWN: int := '?' as int
  const END: int := -1

  /** Every option has a name, and none has the code that ends a run. */
  predicate ValidTable(opts: seq<LongOption>) {
    forall i :: 0 <= i < |opts| ==> opts[i].name != "" && opts[i].shopt != END
  }

  predicate IsPositional(arg: string) {
    |arg| == 0 || arg[0] != '-'
  }

  predicate IsLong(arg: string) {
    |arg| >= 2 && arg[0] == '-' && arg[1] == '-'
  }

  /** The first position of `c` in `s`, or its length. */
  function IndexOf(s: string, c: char): (i: nat)
    ensures i <= |s| && c !in s[..i] && (i < |s| ==> s[i] == c)
  {
    if s == "" then 0
    else if s[0] == c then 0
    else
      var i := 1 + IndexOf(s[1..], c);
      assert s[..i] == [s[0]] + s[1..][..i - 1];
      i
  }

  /** The text between "--" and the first '='. */
  function LongName(arg: string): string
    requires IsLong(arg)
  {
    arg[2..2 + IndexOf(arg[2..], '=')]
  }

  /** The text after the first '=', if there is one. */
  function LongValue(arg: string): Option<string>
    requires IsLong(arg)
  {
    var eq := 2 + IndexOf(arg[2..], '=');
    if eq < |arg| then Some(arg[eq + 1..]) else None
  }

  function FindShort(opts: seq<LongOption>, c: char): Option<LongOption> {
    if opts == [] then None
    else if opts[0].shopt == c as int then Some(opts[0])
    else FindShort(opts[1..], c)
  }

  function FindLong(opts: seq<LongOption>, name: string): Option<LongOption> {
    if opts == [] then None
    else if opts[0].name == name then Some(opts[0])
    else FindLong(opts[1..], name)
  }

  /** One option: its result, the number of characters it uses, the number of slots, and
      whether its argument is missing. */
  datatype Item = Item(result: Result, used: nat, width: nat, missing: bool)

  /** The result for an option that wants an argument, found in `attached` or `following`. */
  function WithArgument(o: LongOption, used: nat, attached: Option<string>, following: Option<string>): Item {
    if attached.Some? then Item(Result(o.shopt, attached), used, 1, false)
    else if following.Some? then Item(Result(o.shopt, following), used, 2, false)
    else Item(Result(UNKNOWN, None), used, 1, true)
  }

  /** The first letter of what is left of a pack. */
  function Letter(opts: seq<LongOption>, pack: string, following: Option<string>): (r: Item)
    requires pack != ""
    ensures 1 <= r.used <= |pack| && 1 <= r.width <= 2
  {
    match FindShort(opts, pack[0])
    case None => Item(Result(UNKNOWN, None), 1, 1, false)
    case Some(o) =>
      if !o.hasArg then Item(Result(o.shopt, None), 1, 1, false)
      else WithArgument(o, |pack|, if |pack| > 1 then Some(pack[1..]) else None, following)
  }

  function Long(opts: seq<LongOption>, arg: string, following: Option<string>): (r: Item)
    requires IsLong(arg)
    ensures r.used == |arg| && 1 <= r.width <= 2
  {
    match FindLong(opts, LongName(arg))
    case None => Item(Result(UNKNOWN, None), |arg|, 1, false)
    case Some(o) =>
      if !o.hasArg then Item(Result(o.shopt, LongValue(arg)), |arg|, 1, false)
      else WithArgument(o, |arg|, LongValue(arg), following)
  }

  /** Everything one option slot gives, the slot after it being `following`. */
  datatype Slot = Slot(results: seq<Result>, width: nat, missing: bool)

  function Pack(opts: seq<LongOption>, pack: string, following: Option<string>): (r: Slot)
    ensures 1 <= r.width <= 2
    decreases |pack|
  {
    if pack == "" then Slot([], 1, false)
    else
      var item := Letter(opts, pack, following);
      var rest := Pack(opts, pack[item.used..], following);
      Slot([item.result] + rest.results,
           if item.width == 2 then 2 else rest.width,
           item.missing || rest.missing)
  }

  function Following(args: seq<string>): Option<string> {
    if |args| > 1 then Some(args[1]) else None
  }

  function ParseSlot(opts: seq<LongOption>, args: seq<string>): (r: Slot)
    requires args != [] && !IsPositional(args[0])
    ensures 1 <= r.width <= 2 && r.width <= |args|
  {
    if IsLong(args[0]) then
      var item := Long(opts, args[0], Following(args));
      Slot([item.result], item.width, item.missing)
    else
      PackFits(opts, args[0][1..], Following(args));
      Pack(opts, args[0][1..], Following(args))
  }

  /** The results of a whole run, up to the first -1. */
  function Results(opts: seq<LongOption>, args: seq<string>): seq<Result>
    decreases |args|
  {
    if args == [] then []
    else if IsPositional(args[0]) then Results(opts, args[1..])
    else if args[0] == "--" then []
    else
      var slot := ParseSlot(opts, args);
      slot.results + Results(opts, args[slot.width..])
  }

  /** The part a slot plays: taken by an option, passed over, or behind "--". */
  datatype Role = Consumed | Skipped | Raw

  function Roles(opts: seq<LongOption>, args: seq<string>): (r: seq<Role>)
    ensures |r| == |args|
    decreases |args|
  {
    if args == [] then []
    else if IsPositional(args[0]) then [Skipped] + Roles(opts, args[1..])
    else if args[0] == "--" then [Consumed] + Repeat(Raw, |args| - 1)
    else
      var w := ParseSlot(opts, args).width;
      Repeat(Consumed, w) + Roles(opts, args[w..])
  }

  /** The slots that play one part, in their order on the command line. */
  function Select(args: seq<string>, roles: seq<Role>, r: Role): seq<string>
    requires |args| == |roles|
  {
    if args == [] then []
    else (if roles[0] == r then [args[0]] else []) + Select(args[1..], roles[1..], r)
  }

  function Taken(opts: seq<LongOption>, args: seq<string>): seq<string> {
    Select(args, Roles(opts, args), Consumed)
  }

  function Positionals(opts: seq<LongOption>, args: seq<string>): seq<string> {
    Select(args, Roles(opts, args), Skipped)
  }

  function RawTail(opts: seq<LongOption>, args: seq<string>): seq<string> {
    Select(args, Roles(opts, args), Raw)
  }

  /** The argument vector, without the program name, as a run leaves it. */
  function Permuted(opts: seq<LongOption>, args: seq<string>): seq<string> {
    Taken(opts, args) + Positionals(opts, args) + RawTail(opts, args)
  }

  /** No slot that is read as an option is a lone '-'. */
  predicate NoLoneDash(opts: seq<LongOption>, args: seq<string>)
    decreases |args|
  {
    if args == [] then true
    else if IsPositional(args[0]) then NoLoneDash(opts, args[1..])
    else if args[0] == "--" then true
    else args[0] != "-" && NoLoneDash(opts, args[ParseSlot(opts, args).width..])
  }

  /** Some option is without the argument it wants. */
  predicate LacksArgument(opts: seq<LongOption>, args: seq<string>)
    decreases |args|
  {
    if args == [] then false
    else if IsPositional(args[0]) then LacksArgument(opts, args[1..])
    else if args[0] == "--" then false
    else
      var slot := ParseSlot(opts, args);
      slot.missing || LacksArgument(opts, args[slot.width..])
  }

  /** The run is ended by "--". */
  predicate Stops(opts: seq<LongOption>, args: seq<string>)
    decreases |args|
  {
    if args == [] then false
    else if IsPositional(args[0]) then Stops(opts, args[1..])
    else if args[0] == "--" then true
    else Stops(opts, args[ParseSlot(opts, args).width..])
  }

  // ---- single slots ------------------------------------------------------------------------

  /** A second slot is taken only where there is one. */
  lemma {:induction false} PackFits(opts: seq<LongOption>, pack: string, following: Option<string>)
    ensures following.None? ==> Pack(opts, pack, following).width == 1
    ensures Pack(opts, pack, following).missing ==> following.None?
    decreases |pack|
  {
    if pack != "" {
      PackFits(opts, pack[Letter(opts, pack, following).used..], following);
    }
  }

  /** An option that takes the following slot is the last of its pack. */
  lemma TwoSlotsFinishPack(opts: seq<LongOption>, pack: string, following: Option<string>)
    requires pack != "" && Letter(opts, pack, following).width == 2
    ensures Letter(opts, pack, following).used == |pack|
  {
  }

  /** A slot that takes nothing from its neighbour, and misses nothing, ignores its neighbour. */
  lemma {:induction false} PackAlone(opts: seq<LongOption>, pack: string,
                                     f: Option<string>, f': Option<string>)
    requires var s := Pack(opts, pack, f); s.width == 1 && !s.missing
    ensures Pack(opts, pack, f') == Pack(opts, pack, f)
    decreases |pack|
  {
    if pack != "" {
      assert Letter(opts, pack, f) == Letter(opts, pack, f');
      PackAlone(opts, pack[Letter(opts, pack, f).used..], f, f');
    }
  }

  /** A missing argument becomes the following slot once there is one, and shows in the last
      result. */
  lemma {:induction false} PackFilled(opts: seq<LongOption>, pack: string, f: string)
    requires Pack(opts, pack, None).missing
    ensures var s, t := Pack(opts, pack, None), Pack(opts, pack, Some(f));
            && |s.results| == |t.results| > 0 && t.width == 2 && !t.missing
            && s.results[|s.results| - 1] != t.results[|s.results| - 1]
    decreases |pack|
  {
    var item, item' := Letter(opts, pack, None), Letter(opts, pack, Some(f));
    assert item.used == item'.used;
    if item.missing {
      assert pack[item.used..] == "";
    } else {
      assert item == item';
      PackFilled(opts, pack[item.used..], f);
    }
  }
}
