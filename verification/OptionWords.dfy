/** What a user writes, and what it means: every way to write an option, with the results it
    gives, told without the parser. A line written so is parsed into what was meant, and every
    line is written so.
 */
module OptionWords {
  import opened Wrappers
  import opened Sequences
  import opened OptionGrammar
  import opened OptionProofs

  // ---- rows of the table ---------------------------------------------------------------------

  /** Row `i` is the first with the letter `c`. */
  predicate LetterRow(opts: seq<LongOption>, i: nat, c: char) {
    i < |opts| && opts[i].shopt == c as int && forall j :: 0 <= j < i ==> opts[j].shopt != c as int
  }

  predicate NoLetter(opts: seq<LongOption>, c: char) {
    forall j :: 0 <= j < |opts| ==> opts[j].shopt != c as int
  }

  /** Row `i` is the first with the name. */
  predicate NameRow(opts: seq<LongOption>, i: nat, name: string) {
    i < |opts| && opts[i].name == name && forall j :: 0 <= j < i ==> opts[j].name != name
  }

  predicate NoName(opts: seq<LongOption>, name: string) {
    forall j :: 0 <= j < |opts| ==> opts[j].name != name
  }

  lemma {:induction false} FindsLetter(opts: seq<LongOption>, i: nat, c: char)
    requires LetterRow(opts, i, c)
    ensures FindShort(opts, c) == Some(opts[i])
    decreases i
  {
    if i > 0 {
      assert opts[0].shopt != c as int;
      FindsLetter(opts[1..], i - 1, c);
    }
  }

  lemma {:induction false} FindsNoLetter(opts: seq<LongOption>, c: char)
    requires NoLetter(opts, c)
    ensures FindShort(opts, c) == None
    decreases |opts|
  {
    if opts != [] {
      FindsNoLetter(opts[1..], c);
    }
  }

  lemma {:induction false} FindsName(opts: seq<LongOption>, i: nat, name: string)
    requires NameRow(opts, i, name)
    ensures FindLong(opts, name) == Some(opts[i])
    decreases i
  {
    if i > 0 {
      assert opts[0].name != name;
      FindsName(opts[1..], i - 1, name);
    }
  }

  lemma {:induction false} FindsNoName(opts: seq<LongOption>, name: string)
    requires NoName(opts, name)
    ensures FindLong(opts, name) == None
    decreases |opts|
  {
    if opts != [] {
      FindsNoName(opts[1..], name);
    }
  }

  lemma {:induction false} LetterRowOrNone(opts: seq<LongOption>, c: char) returns (i: nat)
    ensures LetterRow(opts, i, c) || NoLetter(opts, c)
    decreases |opts|
  {
    if opts == [] || opts[0].shopt == c as int {
      i := 0;
    } else {
      var k := LetterRowOrNone(opts[1..], c);
      i := k + 1;
      assert forall j :: 0 < j < |opts| ==> opts[j] == opts[1..][j - 1];
    }
  }

  lemma {:induction false} NameRowOrNone(opts: seq<LongOption>, name: string) returns (i: nat)
    ensures NameRow(opts, i, name) || NoName(opts, name)
    decreases |opts|
  {
    if opts == [] || opts[0].name == name {
      i := 0;
    } else {
      var k := NameRowOrNone(opts[1..], name);
      i := k + 1;
      assert forall j :: 0 < j < |opts| ==> opts[j] == opts[1..][j - 1];
    }
  }

  // ---- packs of letters ------------------------------------------------------------------------

  /** A letter that takes no argument: a flag, or one that no row has. */
  predicate TakesNone(opts: seq<LongOption>, c: char) {
    NoLetter(opts, c) || exists i: nat :: i < |opts| && LetterRow(opts, i, c) && !opts[i].hasArg
  }

  /** A flag gives its own letter, and an unknown one '?'. */
  function LetterResult(opts: seq<LongOption>, c: char): Result {
    Result(if NoLetter(opts, c) then '?' as int else c as int, None)
  }

  function LetterResults(opts: seq<LongOption>, letters: string): seq<Result> {
    seq(|letters|, k requires 0 <= k < |letters| => LetterResult(opts, letters[k]))
  }

  lemma LetterAlone(opts: seq<LongOption>, pack: string, following: Option<string>)
    requires pack != "" && TakesNone(opts, pack[0])
    ensures Letter(opts, pack, following) == Item(LetterResult(opts, pack[0]), 1, 1, false)
  {
    if NoLetter(opts, pack[0]) {
      FindsNoLetter(opts, pack[0]);
    } else {
      var i: nat :| i < |opts| && LetterRow(opts, i, pack[0]) && !opts[i].hasArg;
      FindsLetter(opts, i, pack[0]);
    }
  }

  lemma {:induction false} PackLetters(opts: seq<LongOption>, letters: string, tail: string, following: Option<string>)
    requires forall k :: 0 <= k < |letters| ==> TakesNone(opts, letters[k])
    ensures var s, t := Pack(opts, letters + tail, following), Pack(opts, tail, following);
            s == Slot(LetterResults(opts, letters) + t.results, t.width, t.missing)
    decreases |letters|
  {
    hide TakesNone, Letter, LetterResult;
    if letters == "" {
      assert letters + tail == tail;
    } else {
      var pack := letters + tail;
      assert pack[1..] == letters[1..] + tail;
      LetterAlone(opts, pack, following);
      PackLetters(opts, letters[1..], tail, following);
      assert LetterResults(opts, letters) == [LetterResult(opts, letters[0])] + LetterResults(opts, letters[1..]);
    }
  }

  // ---- one word, in front of any rest ----------------------------------------------------------

  /** These slots are one word with these results, whatever follows. */
  ghost predicate ReadAs(opts: seq<LongOption>, slots: seq<string>, results: seq<Result>, rest: seq<string>) {
    var args := slots + rest;
    && Results(opts, args) == results + Results(opts, rest)
    && Taken(opts, args) == slots + Taken(opts, rest)
    && Positionals(opts, args) == Positionals(opts, rest)
    && RawTail(opts, args) == RawTail(opts, rest)
    && NoLoneDash(opts, args) == NoLoneDash(opts, rest)
    && LacksArgument(opts, args) == LacksArgument(opts, rest)
  }

  lemma SlotRead(opts: seq<LongOption>, slots: seq<string>, rest: seq<string>)
    requires slots != [] && !IsPositional(slots[0]) && slots[0] != "--" && slots[0] != "-"
    requires var s := ParseSlot(opts, slots + rest); s.width == |slots| && !s.missing
    ensures ReadAs(opts, slots, ParseSlot(opts, slots + rest).results, rest)
  {
    hide Taken, Positionals, RawTail, Results, Roles, ParseSlot, NoLoneDash;
    var args := slots + rest;
    SlotFirst(opts, args);
    assert args[..|slots|] == slots && args[|slots|..] == rest;
  }

  lemma PackSlot(opts: seq<LongOption>, slots: seq<string>, rest: seq<string>, pack: string)
    requires slots != [] && slots[0] == "-" + pack && pack != "" && pack[0] != '-'
    ensures var args := slots + rest;
            && !IsPositional(slots[0]) && slots[0] != "--" && slots[0] != "-"
            && ParseSlot(opts, args) == Pack(opts, pack, Following(args))
  {
    assert slots[0][1..] == pack;
  }

  /** "-abc": flags and unknown letters. */
  lemma Letters(opts: seq<LongOption>, letters: string, rest: seq<string>)
    requires letters != "" && letters[0] != '-'
    requires forall k :: 0 <= k < |letters| ==> TakesNone(opts, letters[k])
    ensures ReadAs(opts, ["-" + letters], LetterResults(opts, letters), rest)
  {
    hide ReadAs, ParseSlot, TakesNone, LetterResults;
    var slots := ["-" + letters];
    PackSlot(opts, slots, rest, letters);
    PackLetters(opts, letters, "", Following(slots + rest));
    assert letters + "" == letters && LetterResults(opts, letters) + [] == LetterResults(opts, letters);
    SlotRead(opts, slots, rest);
  }

  /** "-ofile", also behind flags. */
  lemma LetterJoined(opts: seq<LongOption>, letters: string, i: nat, c: char, arg: string, rest: seq<string>)
    requires (letters + [c])[0] != '-' && forall k :: 0 <= k < |letters| ==> TakesNone(opts, letters[k])
    requires LetterRow(opts, i, c) && opts[i].hasArg && arg != ""
    ensures ReadAs(opts, ["-" + letters + [c] + arg],
                   LetterResults(opts, letters) + [Result(c as int, Some(arg))], rest)
  {
    hide ReadAs, ParseSlot, TakesNone, LetterResults;
    var pack := letters + ([c] + arg);
    var slots := ["-" + letters + [c] + arg];
    assert slots[0] == "-" + pack && pack[0] == (letters + [c])[0];
    PackSlot(opts, slots, rest, pack);
    PackLetters(opts, letters, [c] + arg, Following(slots + rest));
    FindsLetter(opts, i, c);
    assert ([c] + arg)[1..] == arg;
    assert Pack(opts, [c] + arg, Following(slots + rest)) == Slot([Result(c as int, Some(arg))], 1, false);
    SlotRead(opts, slots, rest);
  }

  /** "-o file", also behind flags. */
  lemma LetterApart(opts: seq<LongOption>, letters: string, i: nat, c: char, arg: string, rest: seq<string>)
    requires (letters + [c])[0] != '-' && forall k :: 0 <= k < |letters| ==> TakesNone(opts, letters[k])
    requires LetterRow(opts, i, c) && opts[i].hasArg
    ensures ReadAs(opts, ["-" + letters + [c], arg], LetterResults(opts, letters) + [Result(c as int, Some(arg))], rest)
  {
    hide ReadAs, ParseSlot, TakesNone, LetterResults;
    var pack := letters + [c];
    var slots := ["-" + letters + [c], arg];
    assert slots[0] == "-" + pack;
    PackSlot(opts, slots, rest, pack);
    PackLetters(opts, letters, [c], Following(slots + rest));
    FindsLetter(opts, i, c);
    assert Pack(opts, [c], Following(slots + rest)) == Slot([Result(c as int, Some(arg))], 2, false);
    SlotRead(opts, slots, rest);
  }

  /** "--name" and "--name=value". */
  function LongSlot(name: string, value: Option<string>): string {
    if value.Some? then "--" + name + "=" + value.value else "--" + name
  }

  lemma LongParts(name: string, value: Option<string>)
    requires '=' !in name
    ensures var arg := LongSlot(name, value);
            IsLong(arg) && !IsPositional(arg) && arg != "-" && LongName(arg) == name && LongValue(arg) == value
  {
    var arg := LongSlot(name, value);
    var k := IndexOf(arg[2..], '=');
    if value.Some? {
      assert arg[2..][|name|] == '=';
    }
    assert arg[2..][..|name|] == name;
    assert k == |name|;
  }

  /** A long option that gets what it wants in its own slot. */
  lemma Name(opts: seq<LongOption>, i: nat, name: string, value: Option<string>, rest: seq<string>)
    requires '=' !in name && NameRow(opts, i, name) && (value.Some? || (!opts[i].hasArg && name != ""))
    ensures ReadAs(opts, [LongSlot(name, value)], [Result(opts[i].shopt, value)], rest)
  {
    hide ReadAs, LongName, LongValue;
    var slots := [LongSlot(name, value)];
    LongParts(name, value);
    FindsName(opts, i, name);
    SlotRead(opts, slots, rest);
  }

  /** "--name value". */
  lemma NameApart(opts: seq<LongOption>, i: nat, name: string, arg: string, rest: seq<string>)
    requires '=' !in name && NameRow(opts, i, name) && opts[i].hasArg && name != ""
    ensures ReadAs(opts, ["--" + name, arg], [Result(opts[i].shopt, Some(arg))], rest)
  {
    hide ReadAs, LongName, LongValue;
    LongParts(name, None);
    FindsName(opts, i, name);
    SlotRead(opts, ["--" + name, arg], rest);
  }

  /** A long option that no row has. */
  lemma NameUnknown(opts: seq<LongOption>, name: string, value: Option<string>, rest: seq<string>)
    requires '=' !in name && NoName(opts, name) && (value.Some? || name != "")
    ensures ReadAs(opts, [LongSlot(name, value)], [Result('?' as int, None)], rest)
  {
    hide ReadAs, LongName, LongValue;
    LongParts(name, value);
    FindsNoName(opts, name);
    SlotRead(opts, [LongSlot(name, value)], rest);
  }

  // ---- a last word without its argument ----------------------------------------------------------

  /** These slots end a line, with these results and an argument missing. */
  ghost predicate EndsLacking(opts: seq<LongOption>, slots: seq<string>, results: seq<Result>) {
    && Results(opts, slots) == results && LacksArgument(opts, slots) && NoLoneDash(opts, slots)
    && Taken(opts, slots) == slots && Positionals(opts, slots) == [] && RawTail(opts, slots) == []
  }

  lemma LastSlotRead(opts: seq<LongOption>, slot: string)
    requires !IsPositional(slot) && slot != "--" && slot != "-"
    requires ParseSlot(opts, [slot]).missing
    ensures EndsLacking(opts, [slot], ParseSlot(opts, [slot]).results)
  {
    hide Taken, Positionals, RawTail, Results, Roles, ParseSlot;
    SlotFirst(opts, [slot]);
    NothingParsed(opts);
    NothingSelected(opts);
    assert [slot][1..] == [] && ParseSlot(opts, [slot]).results + [] == ParseSlot(opts, [slot]).results;
  }

  /** "-o" at the end of the line, where an argument is wanted. */
  lemma LetterLacking(opts: seq<LongOption>, letters: string, i: nat, c: char)
    requires (letters + [c])[0] != '-' && forall k :: 0 <= k < |letters| ==> TakesNone(opts, letters[k])
    requires LetterRow(opts, i, c) && opts[i].hasArg
    ensures EndsLacking(opts, ["-" + letters + [c]], LetterResults(opts, letters) + [Result('?' as int, None)])
  {
    hide EndsLacking, ParseSlot, TakesNone, LetterResults;
    var pack, slot := letters + [c], "-" + letters + [c];
    assert slot == "-" + pack && [slot] + [] == [slot];
    PackSlot(opts, [slot], [], pack);
    PackLetters(opts, letters, [c], Following([slot]));
    FindsLetter(opts, i, c);
    assert Pack(opts, [c], Following([slot])) == Slot([Result('?' as int, None)], 1, true);
    LastSlotRead(opts, slot);
  }

  lemma NameLacking(opts: seq<LongOption>, i: nat, name: string)
    requires '=' !in name && NameRow(opts, i, name) && opts[i].hasArg && name != ""
    ensures EndsLacking(opts, ["--" + name], [Result('?' as int, None)])
  {
    hide EndsLacking, LongName, LongValue;
    LongParts(name, None);
    FindsName(opts, i, name);
    LastSlotRead(opts, "--" + name);
  }

  // ---- lines -------------------------------------------------------------------------------------

  datatype Word =
    | Operand(text: string)
    | Flags(letters: string)
    | Joined(letters: string, row: nat, c: char, arg: string)
    | Apart(letters: string, row: nat, c: char, arg: string)
    | Lacking(letters: string, row: nat, c: char)
    | Named(row: nat, value: Option<string>)
    | NamedApart(row: nat, arg: string)
    | NamedLacking(row: nat)
    | Unnamed(name: string, value: Option<string>)
    | Tail(slots: seq<string>)

  /** Nothing can be written behind this word. */
  predicate Ends(w: Word) {
    w.Lacking? || w.NamedLacking? || w.Tail?
  }

  /** Flags in front of a letter that wants an argument. */
  predicate CorrectPack(opts: seq<LongOption>, letters: string, row: nat, c: char) {
    && (letters + [c])[0] != '-' && (forall k :: 0 <= k < |letters| ==> TakesNone(opts, letters[k]))
    && LetterRow(opts, row, c) && opts[row].hasArg
  }

  predicate CorrectName(opts: seq<LongOption>, row: nat) {
    row < |opts| && NameRow(opts, row, opts[row].name) && '=' !in opts[row].name
  }

  /** The word means what it says, given the table. */
  predicate Correct(opts: seq<LongOption>, w: Word) {
    match w
    case Operand(text) => text == "" || text[0] != '-'
    case Flags(letters) =>
      letters != "" && letters[0] != '-' && forall k :: 0 <= k < |letters| ==> TakesNone(opts, letters[k])
    case Joined(letters, row, c, arg) => CorrectPack(opts, letters, row, c) && arg != ""
    case Apart(letters, row, c, _) => CorrectPack(opts, letters, row, c)
    case Lacking(letters, row, c) => CorrectPack(opts, letters, row, c)
    case Named(row, value) =>
      CorrectName(opts, row) && (value.Some? || (!opts[row].hasArg && opts[row].name != ""))
    case NamedApart(row, _) => CorrectName(opts, row) && opts[row].hasArg && opts[row].name != ""
    case NamedLacking(row) => CorrectName(opts, row) && opts[row].hasArg && opts[row].name != ""
    case Unnamed(name, value) => NoName(opts, name) && '=' !in name && (value.Some? || name != "")
    case Tail(_) => true
  }

  /** The slots in which the word is written. */
  function Written(opts: seq<LongOption>, w: Word): seq<string>
    requires Correct(opts, w)
  {
    match w
    case Operand(text) => [text]
    case Flags(letters) => ["-" + letters]
    case Joined(letters, _, c, arg) => ["-" + letters + [c] + arg]
    case Apart(letters, _, c, arg) => ["-" + letters + [c], arg]
    case Lacking(letters, _, c) => ["-" + letters + [c]]
    case Named(row, value) => [LongSlot(opts[row].name, value)]
    case NamedApart(row, arg) => ["--" + opts[row].name, arg]
    case NamedLacking(row) => ["--" + opts[row].name]
    case Unnamed(name, value) => [LongSlot(name, value)]
    case Tail(slots) => ["--"] + slots
  }

  /** What the parser is to report for it. */
  function Meaning(opts: seq<LongOption>, w: Word): seq<Result>
    requires Correct(opts, w)
  {
    match w
    case Operand(_) => []
    case Flags(letters) => LetterResults(opts, letters)
    case Joined(letters, _, c, arg) => LetterResults(opts, letters) + [Result(c as int, Some(arg))]
    case Apart(letters, _, c, arg) => LetterResults(opts, letters) + [Result(c as int, Some(arg))]
    case Lacking(letters, _, _) => LetterResults(opts, letters) + [Result('?' as int, None)]
    case Named(row, value) => [Result(opts[row].shopt, value)]
    case NamedApart(row, arg) => [Result(opts[row].shopt, Some(arg))]
    case NamedLacking(_) => [Result('?' as int, None)]
    case Unnamed(_, _) => [Result('?' as int, None)]
    case Tail(_) => []
  }

  predicate CorrectLine(opts: seq<LongOption>, words: seq<Word>) {
    forall i :: 0 <= i < |words| ==> Correct(opts, words[i]) && (Ends(words[i]) ==> i == |words| - 1)
  }

  /** The whole line, its results, and the slots that the parser sorts to the front, the middle
      and the end. */
  datatype Reading = Reading(
    line: seq<string>, results: seq<Result>,
    options: seq<string>, operands: seq<string>, tail: seq<string>, lacks: bool)

  function Before(opts: seq<LongOption>, w: Word, r: Reading): Reading
    requires Correct(opts, w)
  {
    var slots := Written(opts, w);
    Reading(slots + r.line, Meaning(opts, w) + r.results,
            (if w.Operand? then [] else if w.Tail? then ["--"] else slots) + r.options,
            (if w.Operand? then slots else []) + r.operands,
            (if w.Tail? then w.slots else []) + r.tail,
            w.Lacking? || w.NamedLacking? || r.lacks)
  }

  lemma LineRest(opts: seq<LongOption>, words: seq<Word>)
    requires CorrectLine(opts, words) && words != []
    ensures Correct(opts, words[0]) && CorrectLine(opts, words[1..])
    ensures Ends(words[0]) ==> |words| == 1
  {
    hide Correct, Ends;
    forall i | 0 <= i < |words| - 1
      ensures Correct(opts, words[1..][i]) && (Ends(words[1..][i]) ==> i == |words| - 2)
    {
      assert words[1..][i] == words[i + 1];
    }
  }

  function Read(opts: seq<LongOption>, words: seq<Word>): Reading
    requires CorrectLine(opts, words)
  {
    if words == [] then Reading([], [], [], [], [], false)
    else
      LineRest(opts, words);
      Before(opts, words[0], Read(opts, words[1..]))
  }

  /** The parser's own account of the line is this reading. */
  ghost predicate ParsedAs(opts: seq<LongOption>, r: Reading) {
    && Results(opts, r.line) == r.results && NoLoneDash(opts, r.line)
    && Taken(opts, r.line) == r.options && Positionals(opts, r.line) == r.operands
    && RawTail(opts, r.line) == r.tail && LacksArgument(opts, r.line) == r.lacks
  }

  lemma SlotsBefore(opts: seq<LongOption>, w: Word, r: Reading)
    requires Correct(opts, w) && !w.Operand? && !Ends(w) && ParsedAs(opts, r)
    requires ReadAs(opts, Written(opts, w), Meaning(opts, w), r.line)
    ensures ParsedAs(opts, Before(opts, w, r))
  {
    hide Results, Taken, Positionals, RawTail, NoLoneDash, LacksArgument, Written, Meaning, Correct;
  }

  lemma LackingBefore(opts: seq<LongOption>, w: Word, r: Reading)
    requires Correct(opts, w) && (w.Lacking? || w.NamedLacking?) && r == Read(opts, [])
    requires EndsLacking(opts, Written(opts, w), Meaning(opts, w))
    ensures ParsedAs(opts, Before(opts, w, r))
  {
    hide Results, Taken, Positionals, RawTail, NoLoneDash, LacksArgument, Written, Meaning, Correct;
    NothingAfter(Written(opts, w));
    NothingAfter(Meaning(opts, w));
  }

  lemma NothingAfter<T>(s: seq<T>)
    ensures s + [] == s
  {
  }

  lemma OperandBefore(opts: seq<LongOption>, text: string, r: Reading)
    requires Correct(opts, Operand(text)) && ParsedAs(opts, r)
    ensures ParsedAs(opts, Before(opts, Operand(text), r))
  {
    var args := [text] + r.line;
    assert args[1..] == r.line;
    PositionalFirst(opts, args);
    NothingAfter(r.results);
    assert LacksArgument(opts, args) == LacksArgument(opts, r.line);
    hide Results, Taken, Positionals, RawTail, NoLoneDash, LacksArgument;
  }

  lemma TailBefore(opts: seq<LongOption>, slots: seq<string>)
    ensures ParsedAs(opts, Before(opts, Tail(slots), Read(opts, [])))
  {
    var args := ["--"] + slots;
    assert args[1..] == slots;
    StopFirst(opts, args);
    NothingAfter(args);
    NothingAfter(slots);
    assert !LacksArgument(opts, args);
    hide Results, Taken, Positionals, RawTail, NoLoneDash, LacksArgument;
  }

  lemma WordRead(opts: seq<LongOption>, w: Word, rest: seq<string>)
    requires Correct(opts, w) && !w.Operand? && !Ends(w)
    ensures ReadAs(opts, Written(opts, w), Meaning(opts, w), rest)
  {
    hide ReadAs, LetterResults, TakesNone, NameRow, LetterRow, LongSlot;
    match w
    case Flags(letters) => Letters(opts, letters, rest);
    case Joined(letters, row, c, arg) => LetterJoined(opts, letters, row, c, arg, rest);
    case Apart(letters, row, c, arg) => LetterApart(opts, letters, row, c, arg, rest);
    case Named(row, value) => Name(opts, row, opts[row].name, value, rest);
    case NamedApart(row, arg) => NameApart(opts, row, opts[row].name, arg, rest);
    case Unnamed(name, value) => NameUnknown(opts, name, value, rest);
  }

  lemma WordBefore(opts: seq<LongOption>, w: Word, r: Reading)
    requires Correct(opts, w) && ParsedAs(opts, r) && (Ends(w) ==> r == Read(opts, []))
    ensures ParsedAs(opts, Before(opts, w, r))
  {
    hide ParsedAs, Before, ReadAs, EndsLacking, LetterResults, TakesNone, NameRow, LetterRow, LongSlot;
    match w
    case Operand(text) => OperandBefore(opts, text, r);
    case Lacking(letters, row, c) =>
      LetterLacking(opts, letters, row, c);
      LackingBefore(opts, w, r);
    case NamedLacking(row) =>
      NameLacking(opts, row, opts[row].name);
      LackingBefore(opts, w, r);
    case Tail(slots) => TailBefore(opts, slots);
    case _ =>
      WordRead(opts, w, r.line);
      SlotsBefore(opts, w, r);
  }

  /** Whatever list of options and operands is written as a line, parsing the line gives back
      what was written, for every table. */
  lemma {:induction false} WrittenIsRead(opts: seq<LongOption>, words: seq<Word>)
    requires CorrectLine(opts, words)
    ensures ParsedAs(opts, Read(opts, words))
    decreases |words|
  {
    hide ParsedAs, Before, Correct;
    if words == [] {
      NothingRead(opts);
    } else {
      LineRest(opts, words);
      WrittenIsRead(opts, words[1..]);
      if Ends(words[0]) {
        assert words[1..] == [];
      }
      WordBefore(opts, words[0], Read(opts, words[1..]));
    }
  }

  lemma NothingRead(opts: seq<LongOption>)
    ensures ParsedAs(opts, Read(opts, []))
  {
    NothingParsed(opts);
    NothingSelected(opts);
  }

  lemma LineBefore(opts: seq<LongOption>, w: Word, words: seq<Word>)
    requires Correct(opts, w) && CorrectLine(opts, words) && (Ends(w) ==> words == [])
    ensures CorrectLine(opts, [w] + words) && Read(opts, [w] + words) == Before(opts, w, Read(opts, words))
  {
    hide Correct, Ends, Before;
    var all := [w] + words;
    assert all[1..] == words;
    forall i | 0 <= i < |all|
      ensures Correct(opts, all[i]) && (Ends(all[i]) ==> i == |all| - 1)
    {
      if i > 0 {
        assert all[i] == words[i - 1];
      }
    }
  }

  // ---- every line is written so --------------------------------------------------------------------

  /** A pack is letters that take no argument, and perhaps one that does, with what is behind it. */
  lemma {:induction false} ReadPack(opts: seq<LongOption>, pack: string)
    returns (letters: string, row: nat, tail: string)
    ensures pack == letters + tail && forall k :: 0 <= k < |letters| ==> TakesNone(opts, letters[k])
    ensures tail != "" ==> LetterRow(opts, row, tail[0]) && opts[row].hasArg
    decreases |pack|
  {
    if pack == "" {
      return "", 0, "";
    }
    hide LetterRow, NoLetter;
    row := LetterRowOrNone(opts, pack[0]);
    LetterRowFits(opts, row, pack[0]);
    if !NoLetter(opts, pack[0]) && opts[row].hasArg {
      return "", row, pack;
    }
    var more;
    more, row, tail := ReadPack(opts, pack[1..]);
    letters := [pack[0]] + more;
  }

  lemma LetterRowFits(opts: seq<LongOption>, i: nat, c: char)
    ensures LetterRow(opts, i, c) ==> i < |opts| && !NoLetter(opts, c)
  {
  }

  lemma PackWord(opts: seq<LongOption>, args: seq<string>) returns (w: Word, rest: seq<string>)
    requires args != [] && !IsPositional(args[0]) && !IsLong(args[0]) && args[0] != "-"
    ensures Correct(opts, w) && !w.Operand? && !w.Tail?
    ensures Written(opts, w) + rest == args && (Ends(w) ==> rest == [])
  {
    hide TakesNone, LetterRow;
    var arg := args[0];
    var letters, row, tail := ReadPack(opts, arg[1..]);
    assert arg == "-" + (letters + tail);
    assert args == [arg] + args[1..];
    if tail == "" {
      w, rest := Flags(letters), args[1..];
      assert letters + tail == letters;
    } else {
      var c, v := tail[0], tail[1..];
      assert tail == [c] + v;
      assert (letters + [c])[0] == arg[1];
      if v != "" {
        w, rest := Joined(letters, row, c, v), args[1..];
        assert "-" + letters + [c] + v == arg;
      } else {
        assert "-" + letters + [c] == arg;
        if |args| == 1 {
          w, rest := Lacking(letters, row, c), [];
        } else {
          w, rest := Apart(letters, row, c, args[1]), args[2..];
        }
      }
    }
  }

  lemma NameRowFits(opts: seq<LongOption>, i: nat, name: string)
    ensures NameRow(opts, i, name) ==> i < |opts| && opts[i].name == name
  {
  }

  lemma SlotOfParts(arg: string)
    requires IsLong(arg)
    ensures '=' !in LongName(arg) && arg == LongSlot(LongName(arg), LongValue(arg))
  {
    var k := IndexOf(arg[2..], '=');
    assert arg[2..][..k] == LongName(arg);
    if 2 + k < |arg| {
      assert arg[2..][k] == arg[2 + k];
    }
  }

  lemma NameWord(opts: seq<LongOption>, args: seq<string>) returns (w: Word, rest: seq<string>)
    requires args != [] && IsLong(args[0]) && args[0] != "--"
    ensures Correct(opts, w) && !w.Operand? && !w.Tail?
    ensures Written(opts, w) + rest == args && (Ends(w) ==> rest == [])
  {
    hide NameRow, NoName, LongName, LongValue;
    var arg := args[0];
    var name, value := LongName(arg), LongValue(arg);
    SlotOfParts(arg);
    var row := NameRowOrNone(opts, name);
    NameRowFits(opts, row, name);
    assert args == [arg] + args[1..];
    rest := args[1..];
    if NoName(opts, name) {
      w := Unnamed(name, value);
    } else if value.Some? || !opts[row].hasArg {
      w := Named(row, value);
    } else if |args| == 1 {
      w := NamedLacking(row);
    } else {
      w, rest := NamedApart(row, args[1]), args[2..];
    }
  }

  lemma FirstWord(opts: seq<LongOption>, args: seq<string>) returns (w: Word, rest: seq<string>)
    requires args != [] && NoLoneDash(opts, args)
    ensures Correct(opts, w) && Written(opts, w) + rest == args && (Ends(w) ==> rest == [])
    ensures NoLoneDash(opts, rest) && |rest| < |args|
  {
    hide Correct, Written, Meaning, Taken, Positionals, RawTail, Results, Roles, LacksArgument, ParseSlot;
    if IsPositional(args[0]) {
      w, rest := Operand(args[0]), args[1..];
      OperandWritten(opts, args[0]);
    } else if args[0] == "--" {
      w, rest := Tail(args[1..]), [];
      TailWritten(opts, args[1..]);
    } else {
      if IsLong(args[0]) {
        w, rest := NameWord(opts, args);
      } else {
        w, rest := PackWord(opts, args);
      }
      WrittenSlots(opts, w);
      if !Ends(w) {
        WordRead(opts, w, rest);
      }
    }
  }

  lemma OperandWritten(opts: seq<LongOption>, text: string)
    requires IsPositional(text)
    ensures Correct(opts, Operand(text)) && Written(opts, Operand(text)) == [text]
  {
  }

  lemma TailWritten(opts: seq<LongOption>, slots: seq<string>)
    ensures Correct(opts, Tail(slots)) && Written(opts, Tail(slots)) == ["--"] + slots
  {
  }

  lemma WrittenSlots(opts: seq<LongOption>, w: Word)
    requires Correct(opts, w)
    ensures Written(opts, w) != []
  {
  }

  /** Every line without a lone '-' is a list of options and operands, written down. */
  lemma {:induction false} ReadLine(opts: seq<LongOption>, args: seq<string>) returns (words: seq<Word>)
    requires NoLoneDash(opts, args)
    ensures CorrectLine(opts, words) && Read(opts, words).line == args
    decreases |args|
  {
    hide Correct, Written, Meaning, Ends, NoLoneDash;
    if args == [] {
      words := [];
    } else {
      var w, rest := FirstWord(opts, args);
      var more: seq<Word> := [];
      if !Ends(w) {
        more := ReadLine(opts, rest);
      }
      words := [w] + more;
      LineBefore(opts, w, more);
    }
  }

  /** So the vectors that the parser is meant for are exactly the lines that can be written. */
  lemma WrittenIff(opts: seq<LongOption>, args: seq<string>)
    ensures NoLoneDash(opts, args)
       <==> exists words :: CorrectLine(opts, words) && Read(opts, words).line == args
  {
    hide NoLoneDash, CorrectLine, Read, Results, Taken, Positionals, RawTail, LacksArgument;
    if NoLoneDash(opts, args) {
      var words := ReadLine(opts, args);
    } else {
      forall words | CorrectLine(opts, words)
        ensures Read(opts, words).line != args
      {
        WrittenIsRead(opts, words);
      }
    }
  }
}
