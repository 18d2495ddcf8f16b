/**
 * The command-line argument parser: registered options (`struct ap_value`),
 * a parser holding a growable array of them (`struct ap_parser`), and the
 * left-to-right scan of `argv` that marks the options it meets.
 *
 * A `const char *` that may be NULL is an `Option<string>`; a NULL object
 * pointer is a `null` reference.
 */
module ArgParse {
  import opened Wrappers

  /** `enum ap_type`: a flag takes no argument, a value option takes one. */
  datatype ArgType = Flag | FValue

  /** `struct ap_value`: what the program registers, and what parsing records. */
  class ArgValue {
    const kind: ArgType
    const desc: Option<string>
    const sname: Option<string>
    const lname: Option<string>
    /** `is_exists`: the option was seen (C stores it as the char 0 or 1). */
    var isExists: bool
    /** `value`: the argument that followed a value option, NULL when none was recorded. */
    var value: Option<string>

    /** `ap_value_init`: stores the four given fields; nothing is seen or recorded yet. */
    constructor (kind: ArgType, desc: Option<string>, sname: Option<string>, lname: Option<string>)
      requires sname.Some? ==> CString(sname.value)
      requires lname.Some? ==> CString(lname.value)
      ensures this.kind == kind && this.desc == desc && this.sname == sname && this.lname == lname
      ensures !isExists && value == None
    {
      this.kind := kind;
      this.desc := desc;
      this.sname := sname;
      this.lname := lname;
      isExists := false;
      value := None;
    }
  }

  /** `struct ap_parser`: `values[..len]` are the registered options, `cap` the allocated slots. */
  class ArgParser {
    const programName: Option<string>
    const desc: Option<string>
    var cap: nat
    var len: nat
    var values: array?<ArgValue?>
    /** The registered options, in registration order. */
    ghost var entries: seq<ArgValue>

    ghost predicate Valid()
      reads this, values
    {
      && len <= cap
      && |entries| == len
      && (values == null ==> cap == 0)
      && (values != null ==> values.Length == cap && forall k :: 0 <= k < len ==> values[k] == entries[k])
    }

    /** `ap_parser_init`: an empty parser with no array allocated. */
    constructor (programName: Option<string>, desc: Option<string>)
      ensures Valid()
      ensures this.programName == programName && this.desc == desc
      ensures len == 0 && cap == 0 && values == null && entries == []
    {
      this.programName := programName;
      this.desc := desc;
      cap := 0;
      len := 0;
      values := null;
      entries := [];
    }

    /** The current parse record of every registered option. */
    ghost function Marks(): map<ArgValue, Mark>
      reads this, entries
    {
      map v | v in entries :: Mark(v.isExists, v.value)
    }
  }

  /**
   * `ap_parser_add_argument`: -1 and no change when the parser or the value
   * is NULL; otherwise the value is appended after the existing entries, the
   * array growing by 8 slots (into a fresh copy) when it is full.
   */
  method AddArgument(parser: ArgParser?, value: ArgValue?) returns (r: int)
    requires parser != null ==> parser.Valid()
    modifies if parser == null then {} else {parser, parser.values}
    ensures r == (if parser == null || value == null then -1 else 0)
    ensures parser != null ==> parser.Valid()
    ensures parser != null && value == null ==>
      && unchanged(parser)
      && (parser.values != null ==> unchanged(parser.values))
    ensures parser != null && value != null ==>
      && parser.len == old(parser.len) + 1
      && parser.entries == old(parser.entries) + [value]
      && parser.cap == (if old(parser.len) >= old(parser.cap) then old(parser.cap) + 8 else old(parser.cap))
      && (old(parser.len) < old(parser.cap) ==> parser.values == old(parser.values))
      && (old(parser.len) >= old(parser.cap) ==> fresh(parser.values))
  {
    if parser == null || value == null {
      return -1;
    }
    if parser.len >= parser.cap {
      parser.cap := parser.cap + 8;
      var temp := new ArgValue?[parser.cap];
      var i := 0;
      while i < parser.len
        invariant 0 <= i <= parser.len < temp.Length
        invariant parser.len == old(parser.len) && parser.cap == old(parser.cap) + 8
        invariant parser.values == old(parser.values) && parser.entries == old(parser.entries)
        invariant parser.values != null ==> unchanged(parser.values)
        invariant forall k :: 0 <= k < i ==> temp[k] == parser.entries[k]
      {
        temp[i] := parser.values[i];
        i := i + 1;
      }
      parser.values := temp;
    }
    parser.values[parser.len] := value;
    parser.entries := parser.entries + [value];
    parser.len := parser.len + 1;
    return 0;
  }

  /** What parsing has recorded about one option: `is_exists` and `value`. */
  datatype Mark = Mark(isExists: bool, value: Option<string>)

  /** The result of a scan: whether it succeeded, and the final record of every option. */
  datatype Outcome = Outcome(ok: bool, marks: map<ArgValue, Mark>)

  /** The option's names, where not NULL, are C strings. */
  predicate CNames(v: ArgValue)
  {
    (v.sname.Some? ==> CString(v.sname.value)) && (v.lname.Some? ==> CString(v.lname.value))
  }

  /** `arg` is the option's short or long name (`strcmp` equal to a non-NULL name). */
  predicate Named(v: ArgValue, arg: string)
  {
    v.sname == Some(arg) || v.lname == Some(arg)
  }

  /** The first registered option named `arg`: the inner loop stops at the first match. */
  function FindArg(entries: seq<ArgValue>, arg: string): (r: Option<nat>)
    ensures r.Some? ==> r.value < |entries| && Named(entries[r.value], arg)
    ensures r.Some? ==> forall j :: 0 <= j < r.value ==> !Named(entries[j], arg)
    ensures r.None? <==> forall j :: 0 <= j < |entries| ==> !Named(entries[j], arg)
  {
    if entries == [] then None
    else if Named(entries[0], arg) then Some(0)
    else match FindArg(entries[1..], arg)
      case None => None
      case Some(j) => Some(j + 1)
  }

  /** Every registered option has a record. */
  ghost predicate Covers(entries: seq<ArgValue>, marks: map<ArgValue, Mark>)
  {
    forall j :: 0 <= j < |entries| ==> entries[j] in marks
  }

  /**
   * The loop of `ap_parser_parse` from index i with records `marks`: a word
   * naming a flag marks it and advances by 1; a word naming a value option
   * marks it and, when a word follows, records that word and advances by 2,
   * and fails otherwise; any other word stops the scan. The scan succeeds
   * when it ends exactly at `argc`.
   */
  function Scan(entries: seq<ArgValue>, argv: seq<string>, i: nat, marks: map<ArgValue, Mark>): (o: Outcome)
    requires Covers(entries, marks)
    decreases |argv| - i
  {
    if i >= |argv| then Outcome(i == |argv|, marks)
    else match FindArg(entries, argv[i])
      case None => Outcome(false, marks)
      case Some(j) =>
        var v := entries[j];
        if v.kind == Flag then
          Scan(entries, argv, i + 1, marks[v := marks[v].(isExists := true)])
        else if i + 1 >= |argv| then
          Outcome(false, marks[v := marks[v].(isExists := true)])
        else
          Scan(entries, argv, i + 2, marks[v := Mark(true, Some(argv[i + 1]))])
  }

  /**
   * The inner loop of `ap_parser_parse`: the index of the first registered
   * option whose short or long name is `arg`, or `len` when there is none.
   */
  method Lookup(parser: ArgParser, arg: string) returns (j: nat)
    requires parser.Valid()
    ensures j <= parser.len
    ensures j < parser.len <==> FindArg(parser.entries, arg) == Some(j)
    ensures j == parser.len <==> FindArg(parser.entries, arg).None?
  {
    j := 0;
    while j < parser.len
      invariant 0 <= j <= parser.len
      invariant forall k :: 0 <= k < j ==> !Named(parser.entries[k], arg)
    {
      var value := parser.values[j];
      if (value.sname.Some? && arg == value.sname.value) || (value.lname.Some? && arg == value.lname.value) {
        return;
      }
      j := j + 1;
    }
  }

  /**
   * The body of the scan loop of `ap_parser_parse` at a word naming the j-th
   * option: marks the option, records the next word for a value option, and
   * advances past what it consumed. `ok` is false for a value option in the
   * last position, where the source returns -1.
   */
  method Visit(parser: ArgParser, argv: seq<string>, i: nat, j: nat, ghost marks: map<ArgValue, Mark>)
      returns (next: nat, ok: bool, ghost marks': map<ArgValue, Mark>)
    requires parser.Valid() && i < |argv| && j < parser.len && FindArg(parser.entries, argv[i]) == Some(j)
    requires Records(parser.entries, marks)
    modifies parser.entries[j]
    ensures parser.entries[j].isExists
    ensures ok <==> !(parser.entries[j].kind == FValue && i + 1 >= |argv|)
    ensures ok ==> next == if parser.entries[j].kind == Flag then i + 1 else i + 2
    ensures parser.entries[j].value ==
      if parser.entries[j].kind == FValue && ok then Some(argv[i + 1]) else old(parser.entries[j].value)
    ensures Records(parser.entries, marks')
    ensures ok ==> i < next <= |argv| && Scan(parser.entries, argv, i, marks) == Scan(parser.entries, argv, next, marks')
    ensures !ok ==> Scan(parser.entries, argv, i, marks) == Outcome(false, marks')
  {
    ghost var entries := parser.entries;
    var value: ArgValue := parser.values[j];
    ScanStep(entries, argv, i, marks, j);
    value.isExists := true;
    ok := true;
    if value.kind == Flag {
      next := i + 1;
    } else if i + 1 >= |argv| {
      next := i + 1;
      ok := false;
    } else {
      value.value := Some(argv[i + 1]);
      next := i + 2;
    }
    marks' := marks[value := Mark(value.isExists, value.value)];
    forall k | 0 <= k < |entries|
      ensures entries[k] in marks' && marks'[entries[k]] == Mark(entries[k].isExists, entries[k].value)
    {
      assert old(entries[k] in marks && marks[entries[k]] == Mark(entries[k].isExists, entries[k].value));
    }
  }

  /**
   * `ap_parser_parse`: -1 for a NULL parser; otherwise 0 exactly when the
   * scan from `argv[1]` succeeds, and every registered option ends with
   * the record the scan gives it. Only the registered options change.
   */
  method Parse(parser: ArgParser?, argv: seq<string>) returns (r: int)
    requires parser != null ==> parser.Valid()
    requires forall k :: 0 <= k < |argv| ==> CString(argv[k])
    requires parser != null ==> forall k :: 0 <= k < |parser.entries| ==> CNames(parser.entries[k])
    modifies if parser == null then {} else Registered(parser.entries)
    ensures parser == null ==> r == -1
    ensures parser != null ==>
      var o := Scan(parser.entries, argv, 1, old(parser.Marks()));
      && r == (if o.ok then 0 else -1)
      && Records(parser.entries, o.marks)
  {
    if parser == null {
      return -1;
    }
    ghost var entries := parser.entries;
    ghost var marks0 := parser.Marks();
    ghost var marks := marks0;
    RegisteredIsEntries(entries);
    var i := 1;
    while i < |argv|
      invariant 1 <= i
      invariant parser.Valid() && parser.entries == entries
      invariant Records(entries, marks)
      invariant Scan(entries, argv, i, marks) == Scan(entries, argv, 1, marks0)
      decreases |argv| - i
    {
      var j := Lookup(parser, argv[i]);
      if j == parser.len {
        break;
      }
      var ok;
      i, ok, marks := Visit(parser, argv, i, j, marks);
      if !ok {
        return -1;
      }
    }
    if i == |argv| {
      return 0;
    }
    return -1;
  }

  /** Each registered option appears in `marks` with its current `is_exists` and `value`. */
  ghost predicate Records(entries: seq<ArgValue>, marks: map<ArgValue, Mark>)
    reads set k | 0 <= k < |entries| :: entries[k]
  {
    forall k :: 0 <= k < |entries| ==> entries[k] in marks && marks[entries[k]] == Mark(entries[k].isExists, entries[k].value)
  }

  /** The registered options as a set. */
  ghost function Registered(entries: seq<ArgValue>): set<ArgValue>
  {
    if entries == [] then {} else {entries[0]} + Registered(entries[1..])
  }

  /** Every entry is in `Registered(entries)`. */
  lemma {:induction false} RegisteredIsEntries(entries: seq<ArgValue>)
    ensures forall k :: 0 <= k < |entries| ==> entries[k] in Registered(entries)
  {
    if entries != [] {
      RegisteredIsEntries(entries[1..]);
      assert forall k :: 1 <= k < |entries| ==> entries[k] == entries[1..][k - 1];
    }
  }

  /** One step of the scan at a word naming the j-th option. */
  lemma ScanStep(entries: seq<ArgValue>, argv: seq<string>, i: nat, marks: map<ArgValue, Mark>, j: nat)
    requires Covers(entries, marks) && i < |argv| && FindArg(entries, argv[i]) == Some(j)
    ensures var v := entries[j];
      Scan(entries, argv, i, marks) ==
        if v.kind == Flag then Scan(entries, argv, i + 1, marks[v := marks[v].(isExists := true)])
        else if i + 1 >= |argv| then Outcome(false, marks[v := marks[v].(isExists := true)])
        else Scan(entries, argv, i + 2, marks[v := Mark(true, Some(argv[i + 1]))])
  {
  }

  // ---------------------------------------------------------------------
  // What the scan guarantees
  // ---------------------------------------------------------------------

  /** The scan keeps the set of records, and never clears `is_exists`. */
  lemma {:induction false} ScanKeepsSeen(entries: seq<ArgValue>, argv: seq<string>, i: nat, marks: map<ArgValue, Mark>)
    requires Covers(entries, marks)
    ensures Scan(entries, argv, i, marks).marks.Keys == marks.Keys
    ensures forall v :: v in marks && marks[v].isExists ==> Scan(entries, argv, i, marks).marks[v].isExists
    decreases |argv| - i
  {
    if i < |argv| {
      match FindArg(entries, argv[i])
      case None =>
      case Some(j) =>
        var v := entries[j];
        if v.kind == Flag {
          ScanKeepsSeen(entries, argv, i + 1, marks[v := marks[v].(isExists := true)]);
        } else if i + 1 < |argv| {
          ScanKeepsSeen(entries, argv, i + 2, marks[v := Mark(true, Some(argv[i + 1]))]);
        }
    }
  }

  /**
   * An option whose record the scan changes is named by some word at or after
   * i, and a value it records is the word right after one of its names.
   */
  lemma {:induction false} ScanChangesOnlyNamed(entries: seq<ArgValue>, argv: seq<string>, i: nat, marks: map<ArgValue, Mark>, v: ArgValue)
    requires Covers(entries, marks) && v in marks
    ensures var o := Scan(entries, argv, i, marks);
      v in o.marks &&
      (o.marks[v] != marks[v] ==> exists p :: i <= p < |argv| && Named(v, argv[p]))
    ensures var o := Scan(entries, argv, i, marks);
      v in o.marks &&
      (o.marks[v].value != marks[v].value ==>
        exists p :: i <= p && p + 1 < |argv| && Named(v, argv[p]) && o.marks[v].value == Some(argv[p + 1]))
    decreases |argv| - i
  {
    ScanKeepsSeen(entries, argv, i, marks);
    if i < |argv| {
      match FindArg(entries, argv[i])
      case None =>
      case Some(j) =>
        var u := entries[j];
        if u.kind == Flag {
          var m := marks[u := marks[u].(isExists := true)];
          ScanChangesOnlyNamed(entries, argv, i + 1, m, v);
          var o := Scan(entries, argv, i, marks);
          if o.marks[v].value != marks[v].value {
            var p :| i + 1 <= p && p + 1 < |argv| && Named(v, argv[p]) && o.marks[v].value == Some(argv[p + 1]);
          }
        } else if i + 1 < |argv| {
          var m := marks[u := Mark(true, Some(argv[i + 1]))];
          ScanChangesOnlyNamed(entries, argv, i + 2, m, v);
          var o := Scan(entries, argv, i, marks);
          if o.marks[v].value != marks[v].value && o.marks[v].value == m[v].value {
            assert u == v;
          }
        }
    }
  }

  /** The option a word selects when it names a flag. */
  predicate NamesFlag(entries: seq<ArgValue>, arg: string)
  {
    match FindArg(entries, arg)
    case None => false
    case Some(j) => entries[j].kind == Flag
  }

  /** When every remaining word names a registered flag, the scan succeeds and marks each of those flags. */
  lemma {:induction false} FlagsOnlySucceed(entries: seq<ArgValue>, argv: seq<string>, i: nat, marks: map<ArgValue, Mark>)
    requires Covers(entries, marks) && i <= |argv|
    requires forall p :: i <= p < |argv| ==> NamesFlag(entries, argv[p])
    ensures Scan(entries, argv, i, marks).ok
    ensures var o := Scan(entries, argv, i, marks);
      forall p, j :: i <= p < |argv| && FindArg(entries, argv[p]) == Some(j) ==> entries[j] in o.marks && o.marks[entries[j]].isExists
    decreases |argv| - i
  {
    if i < |argv| {
      var j := FindArg(entries, argv[i]).value;
      var v := entries[j];
      var m := marks[v := marks[v].(isExists := true)];
      FlagsOnlySucceed(entries, argv, i + 1, m);
      ScanKeepsSeen(entries, argv, i + 1, m);
    }
    ScanKeepsSeen(entries, argv, i, marks);
  }

  /** A word naming no registered option stops the scan, and it fails. */
  lemma UnknownWordFails(entries: seq<ArgValue>, argv: seq<string>, i: nat, marks: map<ArgValue, Mark>)
    requires Covers(entries, marks) && i < |argv|
    requires forall j :: 0 <= j < |entries| ==> !Named(entries[j], argv[i])
    ensures Scan(entries, argv, i, marks) == Outcome(false, marks)
  {
  }

  /** A value option as the last word fails, after marking the option as seen. */
  lemma TrailingValueFails(entries: seq<ArgValue>, argv: seq<string>, marks: map<ArgValue, Mark>, j: nat)
    requires Covers(entries, marks) && |argv| >= 2
    requires FindArg(entries, argv[|argv| - 1]) == Some(j) && entries[j].kind == FValue
    ensures var v := entries[j];
      Scan(entries, argv, |argv| - 1, marks) == Outcome(false, marks[v := marks[v].(isExists := true)])
  {
  }

  /** Word k exists and the scan, arriving there, visits option `v`. */
  predicate VisitsAt(entries: seq<ArgValue>, argv: seq<string>, k: nat, v: ArgValue)
  {
    k < |argv| &&
    match FindArg(entries, argv[k])
    case None => false
    case Some(j) => entries[j] == v
  }

  /**
   * The scan started at word a arrives at word b: every word it steps over
   * names a registered option, and every value option on the way has its
   * argument.
   */
  predicate Reaches(entries: seq<ArgValue>, argv: seq<string>, a: nat, b: nat)
    decreases b - a
  {
    if a >= b then a == b
    else
      a < |argv| &&
      match FindArg(entries, argv[a])
      case None => false
      case Some(j) =>
        if entries[j].kind == Flag then Reaches(entries, argv, a + 1, b)
        else a + 1 < |argv| && Reaches(entries, argv, a + 2, b)
  }

  /** When the scan from a never visits `v`, it leaves the record of `v` as it was. */
  lemma {:induction false} UnvisitedKeepsRecord(entries: seq<ArgValue>, argv: seq<string>, a: nat, marks: map<ArgValue, Mark>, v: ArgValue)
    requires Covers(entries, marks) && v in marks
    requires forall k :: Reaches(entries, argv, a, k) ==> !VisitsAt(entries, argv, k, v)
    ensures v in Scan(entries, argv, a, marks).marks
    ensures Scan(entries, argv, a, marks).marks[v] == marks[v]
    decreases |argv| - a
  {
    ScanKeepsSeen(entries, argv, a, marks);
    if a < |argv| {
      assert Reaches(entries, argv, a, a);
      match FindArg(entries, argv[a])
      case None =>
      case Some(j) =>
        var u := entries[j];
        if u.kind == Flag {
          forall k | Reaches(entries, argv, a + 1, k)
            ensures !VisitsAt(entries, argv, k, v)
          {
            assert Reaches(entries, argv, a, k);
          }
          UnvisitedKeepsRecord(entries, argv, a + 1, marks[u := marks[u].(isExists := true)], v);
        } else if a + 1 < |argv| {
          forall k | Reaches(entries, argv, a + 2, k)
            ensures !VisitsAt(entries, argv, k, v)
          {
            assert Reaches(entries, argv, a, k);
          }
          UnvisitedKeepsRecord(entries, argv, a + 2, marks[u := Mark(true, Some(argv[a + 1]))], v);
        }
    }
  }

  /**
   * The last visit of a value option decides its record: when the scan from
   * a arrives at word p, which names value option `v` and has an argument,
   * and no later step visits `v`, the scan ends with `v` seen and its value
   * the word after p, whether or not the scan as a whole succeeds.
   */
  lemma {:induction false} LastVisitDecides(entries: seq<ArgValue>, argv: seq<string>, a: nat, p: nat, marks: map<ArgValue, Mark>, v: ArgValue)
    requires Covers(entries, marks)
    requires Reaches(entries, argv, a, p) && VisitsAt(entries, argv, p, v) && v.kind == FValue && p + 1 < |argv|
    requires forall k :: Reaches(entries, argv, p + 2, k) ==> !VisitsAt(entries, argv, k, v)
    ensures v in Scan(entries, argv, a, marks).marks
    ensures Scan(entries, argv, a, marks).marks[v] == Mark(true, Some(argv[p + 1]))
    decreases p - a
  {
    var u := entries[FindArg(entries, argv[a]).value];
    if a == p {
      UnvisitedKeepsRecord(entries, argv, p + 2, marks[v := Mark(true, Some(argv[p + 1]))], v);
    } else if u.kind == Flag {
      LastVisitDecides(entries, argv, a + 1, p, marks[u := marks[u].(isExists := true)], v);
    } else {
      LastVisitDecides(entries, argv, a + 2, p, marks[u := Mark(true, Some(argv[a + 1]))], v);
    }
  }

  /**
   * A value option given twice keeps the argument of its second occurrence,
   * whatever options come in between, unless the scan visits it again.
   */
  lemma RepeatedValueKeepsLast(entries: seq<ArgValue>, argv: seq<string>, i: nat, i2: nat, marks: map<ArgValue, Mark>, v: ArgValue)
    requires Covers(entries, marks)
    requires VisitsAt(entries, argv, i, v) && v.kind == FValue && i + 1 < |argv|
    requires Reaches(entries, argv, i + 2, i2) && VisitsAt(entries, argv, i2, v) && i2 + 1 < |argv|
    requires forall k :: Reaches(entries, argv, i2 + 2, k) ==> !VisitsAt(entries, argv, k, v)
    ensures v in Scan(entries, argv, i, marks).marks
    ensures Scan(entries, argv, i, marks).marks[v] == Mark(true, Some(argv[i2 + 1]))
  {
    assert Reaches(entries, argv, i, i2);
    LastVisitDecides(entries, argv, i, i2, marks, v);
  }

  /** `-i a -v -i b` with `-v` a flag: the value option `-i` ends with `b`. */
  lemma InterleavedRepeatKeepsLast(inp: ArgValue, verbose: ArgValue, marks: map<ArgValue, Mark>)
    requires inp.kind == FValue && inp.sname == Some("-i") && inp.lname == None
    requires verbose.kind == Flag && verbose.sname == Some("-v") && verbose.lname == None
    requires Covers([inp, verbose], marks)
    ensures var o := Scan([inp, verbose], ["prog", "-i", "a", "-v", "-i", "b"], 1, marks);
      o.ok && inp in o.marks && o.marks[inp] == Mark(true, Some("b"))
  {
    var entries := [inp, verbose];
    var argv := ["prog", "-i", "a", "-v", "-i", "b"];
    assert FindArg(entries, "-i") == Some(0);
    assert FindArg(entries, "-v") == Some(1);
    assert Reaches(entries, argv, 3, 4);
    RepeatedValueKeepsLast(entries, argv, 1, 4, marks, inp);
  }

  /** With only the program name the scan succeeds and changes nothing; with no words at all it fails (`i` starts past `argc`). */
  lemma EdgeArgc(entries: seq<ArgValue>, prog: string, marks: map<ArgValue, Mark>)
    requires Covers(entries, marks)
    ensures Scan(entries, [prog], 1, marks) == Outcome(true, marks)
    ensures Scan(entries, [], 1, marks) == Outcome(false, marks)
  {
  }
}
