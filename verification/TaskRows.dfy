/**
 * The rows of the task list. Each row is display text
 * `name | Приоритет: priority | Дедлайн: deadline`; the application reads the
 * fields back out of that text in three ways (for saving, for the priority
 * sort and for the deadline sort). This module states those codecs and the
 * results of the two sorts as functions, and proves what they recover.
 */
module TaskRows {
  import opened Wrappers
  import opened PyStr
  import opened StableSort
  import opened IsoDate

  const Low: string := "Низкий"
  const Medium: string := "Средний"
  const High: string := "Высокий"

  /** The priority choices, lowest first: a label's index is its rank. */
  const Labels: seq<string> := [Low, Medium, High]

  const PriorityField: string := "Приоритет"
  const DeadlineField: string := "Дедлайн"

  /** What goes wrong, in place of the exception or warning dialog of each handler. */
  datatype Error =
    | EmptyTask            // add with a name that is blank after stripping
    | NoSelection          // delete with no current row
    | IndexError           // a row lacks a part that a parser indexes
    | ValueError           // a priority that is not one of the labels
    | FileNotFound         // no saved task file
    | InvalidJson          // the saved file is not a JSON document
    | KeyError(key: string) // a loaded object lacks one of the three keys

  /** A saved task: the object `{task, priority, deadline}` of the task file. */
  datatype Record = Record(task: string, priority: string, deadline: string)

  /** A loaded JSON object with text values. */
  type Object = map<string, string>

  /** The display text of a row. */
  function Format(task: string, priority: string, deadline: string): string {
    task + " | " + PriorityField + ": " + priority + " | " + DeadlineField + ": " + deadline
  }

  /** `xs.index(x)` on a Python list: the first position of `x`, or `ValueError`. */
  function IndexOf(xs: seq<string>, x: string): (r: Result<nat, Error>)
    ensures r.Ok? ==> r.value < |xs| && xs[r.value] == x
    ensures r.Ok? ==> forall j :: 0 <= j < r.value ==> xs[j] != x
    ensures r.Err? <==> x !in xs
    ensures r.Err? ==> r.error == ValueError
  {
    if xs == [] then Err(ValueError)
    else if xs[0] == x then Ok(0)
    else
      match IndexOf(xs[1..], x)
      case Ok(i) => Ok(i + 1)
      case Err(e) => Err(e)
  }

  /**
   * The fields `save_tasks` reads from a row: split on `" | "`, then the
   * second and third parts on `": "`, taking the part after the colon.
   */
  function ParseRecord(row: string): Result<Record, Error> {
    var parts := Split(row, " | ");
    if |parts| < 2 then Err(IndexError)
    else
      var p := Split(parts[1], ": ");
      if |p| < 2 || |parts| < 3 then Err(IndexError)
      else
        var d := Split(parts[2], ": ");
        if |d| < 2 then Err(IndexError)
        else Ok(Record(parts[0], p[1], d[1]))
  }

  /**
   * The value of one field of a row: split the field on `": "` and strip the
   * part after the colon.
   */
  function FieldValue(field: string): Result<string, Error> {
    var fields := Split(field, ": ");
    if |fields| < 2 then Err(IndexError) else Ok(Strip(fields[1]))
  }

  /**
   * The priority sort key: split on `|`, take the second part, take its
   * value and look it up among the labels.
   */
  function PriorityKey(row: string): Result<nat, Error> {
    var parts := Split(row, "|");
    if |parts| < 2 then Err(IndexError)
    else
      match FieldValue(parts[1])
      case Err(e) => Err(e)
      case Ok(v) => IndexOf(Labels, v)
  }

  /** The deadline sort key: split on `|` and take the value of the LAST part. */
  function DeadlineKey(row: string): Result<string, Error> {
    var parts := Split(row, "|");
    FieldValue(parts[|parts| - 1])
  }

  /**
   * `f` applied to every row in order, as a list comprehension or a loop
   * that appends does; the first row on which `f` fails stops it.
   */
  function Collect<K>(rows: seq<string>, f: string -> Result<K, Error>): (r: Result<seq<K>, Error>)
    ensures r.Ok? ==> |r.value| == |rows| && forall i :: 0 <= i < |rows| ==> f(rows[i]) == Ok(r.value[i])
    ensures r.Err? ==> exists i :: 0 <= i < |rows| && f(rows[i]) == Err(r.error)
                                   && forall j :: 0 <= j < i ==> f(rows[j]).Ok?
    ensures r.Err? <==> exists i :: 0 <= i < |rows| && f(rows[i]).Err?
  {
    if rows == [] then Ok([])
    else
      var n := |rows| - 1;
      match Collect(rows[..n], f)
      case Err(e) => Err(e)
      case Ok(done) =>
        match f(rows[n])
        case Err(e) => Err(e)
        case Ok(k) => Ok(done + [k])
  }

  /** Once `f` has failed on a prefix, the rest of the rows change nothing. */
  lemma {:induction false} CollectStops<K>(rows: seq<string>, f: string -> Result<K, Error>, i: nat)
    requires i <= |rows| && Collect(rows[..i], f).Err?
    ensures Collect(rows, f) == Collect(rows[..i], f)
    decreases |rows| - i
  {
    if i < |rows| {
      assert rows[..i + 1][..i] == rows[..i];
      CollectStops(rows, f, i + 1);
    } else {
      assert rows[..i] == rows;
    }
  }

  /** The records `save_tasks` builds from the rows, or the error it raises. */
  function SaveRecords(rows: seq<string>): Result<seq<Record>, Error> {
    Collect(rows, ParseRecord)
  }

  /** The JSON object that saving `r` writes. */
  function ToObject(r: Record): Object {
    map["task" := r.task, "priority" := r.priority, "deadline" := r.deadline]
  }

  /** The row `load_tasks` makes from one object; the keys are read in the order task, priority, deadline. */
  function RowOf(obj: Object): Result<string, Error> {
    if "task" !in obj then Err(KeyError("task"))
    else if "priority" !in obj then Err(KeyError("priority"))
    else if "deadline" !in obj then Err(KeyError("deadline"))
    else Ok(Format(obj["task"], obj["priority"], obj["deadline"]))
  }

  /** The rows a load leaves in the list, and the error that stopped it, if any. */
  datatype Loaded = Loaded(rows: seq<string>, failure: Option<Error>)

  /**
   * The rows `load_tasks` appends after clearing the list: one per object,
   * stopping at the first object that lacks a key (the rows before it stay).
   */
  function LoadRows(objs: seq<Object>): (r: Loaded)
    ensures |r.rows| <= |objs|
    ensures forall i :: 0 <= i < |r.rows| ==> RowOf(objs[i]) == Ok(r.rows[i])
    ensures r.failure.None? ==> |r.rows| == |objs|
    ensures r.failure.Some? ==> |r.rows| < |objs| && RowOf(objs[|r.rows|]) == Err(r.failure.value)
  {
    if objs == [] then Loaded([], None)
    else
      var n := |objs| - 1;
      var prefix := LoadRows(objs[..n]);
      if prefix.failure.Some? then prefix
      else
        match RowOf(objs[n])
        case Err(e) => Loaded(prefix.rows, Some(e))
        case Ok(row) => Loaded(prefix.rows + [row], None)
  }

  /** Once an object has failed, the objects after it change nothing. */
  lemma {:induction false} LoadRowsStops(objs: seq<Object>, i: nat)
    requires i <= |objs| && LoadRows(objs[..i]).failure.Some?
    ensures LoadRows(objs) == LoadRows(objs[..i])
    decreases |objs| - i
  {
    if i < |objs| {
      assert objs[..i + 1][..i] == objs[..i];
      LoadRowsStops(objs, i + 1);
    } else {
      assert objs[..i] == objs;
    }
  }

  /** The rank of a row's priority; only consulted once every row's key is known to exist. */
  function PriorityRank(row: string): nat {
    match PriorityKey(row)
    case Ok(k) => k
    case Err(_) => 0
  }

  /** The deadline of a row; only consulted once every row's key is known to exist. */
  function DeadlineText(row: string): string {
    match DeadlineKey(row)
    case Ok(d) => d
    case Err(_) => []
  }

  /** `a`'s priority key is `<=` `b`'s. */
  predicate PriorityLe(a: string, b: string) {
    PriorityRank(a) <= PriorityRank(b)
  }

  /** `a`'s deadline key is `<=` `b`'s as Python compares strings. */
  predicate DeadlineLe(a: string, b: string) {
    StrLe(DeadlineText(a), DeadlineText(b))
  }

  /**
   * `tasks.sort(key=priority key)`: the keys are computed first, and the
   * first one that fails aborts the sort; otherwise the stable sort by rank.
   */
  function PrioritySorted(rows: seq<string>): Result<seq<string>, Error> {
    match Collect(rows, PriorityKey)
    case Err(e) => Err(e)
    case Ok(_) => Ok(Sort(rows, PriorityLe))
  }

  /** `tasks.sort(key=deadline key)`, in the same way. */
  function DeadlineSorted(rows: seq<string>): Result<seq<string>, Error> {
    match Collect(rows, DeadlineKey)
    case Err(e) => Err(e)
    case Ok(_) => Ok(Sort(rows, DeadlineLe))
  }

  /** Text that every parser can take back out of a row: no `|` and no `:`. */
  predicate Plain(s: string) {
    '|' !in s && ':' !in s
  }

  /** A record as the add form produces it: one of the labels, a `yyyy-MM-dd` date, and a name without `|`. */
  predicate WellFormed(r: Record) {
    '|' !in r.task && r.priority in Labels && IsIsoDate(r.deadline)
  }

  lemma FieldNamesArePlain()
    ensures Plain(PriorityField) && Plain(DeadlineField)
    ensures Plain(" " + PriorityField) && Plain(" " + DeadlineField)
  {
    assert PriorityField == ['П', 'р', 'и', 'о', 'р', 'и', 'т', 'е', 'т'];
    assert DeadlineField == ['Д', 'е', 'д', 'л', 'а', 'й', 'н'];
  }

  lemma LabelsArePlain()
    ensures forall l :: l in Labels ==> Plain(l) && Stripped(l)
  {
    assert Low == ['Н', 'и', 'з', 'к', 'и', 'й'];
    assert Medium == ['С', 'р', 'е', 'д', 'н', 'и', 'й'];
    assert High == ['В', 'ы', 'с', 'о', 'к', 'и', 'й'];
  }

  lemma PlainConcat(a: string, b: string)
    requires Plain(a) && Plain(b)
    ensures Plain(a + b)
  {
    forall c | c in a + b ensures c != '|' && c != ':' {
      var i :| 0 <= i < |a + b| && (a + b)[i] == c;
      if i < |a| { assert a[i] == c; } else { assert b[i - |a|] == c; }
    }
  }

  /**
   * The `save_tasks` parse of a row recovers the name, priority and deadline
   * it was formatted from, provided the name has no `|` and the priority and
   * deadline have neither `|` nor `:`.
   */
  lemma ParseFormat(t: string, p: string, d: string)
    requires '|' !in t && Plain(p) && Plain(d)
    ensures ParseRecord(Format(t, p, d)) == Ok(Record(t, p, d))
  {
    FieldNamesArePlain();
    var pf := PriorityField + ": " + p;
    var df := DeadlineField + ": " + d;
    NoBarConcat(PriorityField, ": ");
    NoBarConcat(PriorityField + ": ", p);
    NoBarConcat(DeadlineField, ": ");
    NoBarConcat(DeadlineField + ": ", d);
    assert Format(t, p, d) == t + " | " + (pf + " | " + df);
    SplitAt(t, " | ", pf + " | " + df, 1);
    SplitAt(pf, " | ", df, 1);
    SplitWhole(df, " | ", 1);
    assert Split(Format(t, p, d), " | ") == [t, pf, df];
    SplitAt(PriorityField, ": ", p, 0);
    SplitWhole(p, ": ", 0);
    SplitAt(DeadlineField, ": ", d, 0);
    SplitWhole(d, ": ", 0);
  }

  /**
   * The priority sort key of a row is the index of its priority among the
   * labels, provided the name has no `|` and the priority is plain text
   * without surrounding whitespace. The deadline does not matter.
   */
  lemma PriorityKeyFormat(t: string, p: string, d: string)
    requires '|' !in t && Plain(p) && Stripped(p)
    ensures PriorityKey(Format(t, p, d)) == IndexOf(Labels, p)
  {
    BarParts(t, p, d);
    FieldNamesArePlain();
    FieldValueOf(" " + PriorityField, p, " ");
  }

  /** Split on `|`, a row whose name and priority have no `|` has the priority field second. */
  lemma BarParts(t: string, p: string, d: string)
    requires '|' !in t && '|' !in p
    ensures var parts := Split(Format(t, p, d), "|");
      |parts| >= 2 && parts[1] == " " + PriorityField + ": " + (p + " ")
  {
    FieldNamesArePlain();
    var middle := " " + PriorityField + ": " + p + " ";
    var last := " " + DeadlineField + ": " + d;
    NoBarConcat(" " + PriorityField, ": ");
    NoBarConcat(" " + PriorityField + ": ", p);
    NoBarConcat(" " + PriorityField + ": " + p, " ");
    NoBarConcat(t, " ");
    assert Format(t, p, d) == (t + " ") + "|" + (middle + "|" + last);
    SplitAt(t + " ", "|", middle + "|" + last, 0);
    SplitAt(middle, "|", last, 0);
  }

  /** Split on `": "`, a field name without `:` followed by `": "` and text without `:` gives that text second. */
  lemma AfterColon(field: string, v: string)
    requires ':' !in field && ':' !in v
    ensures var fields := Split(field + ": " + v, ": "); |fields| == 2 && fields[1] == v
  {
    SplitAt(field, ": ", v, 0);
    SplitWhole(v, ": ", 0);
  }

  /**
   * A field written as its name, `": "` and a plain value padded with
   * whitespace on the right has that value.
   */
  lemma FieldValueOf(name: string, v: string, pad: string)
    requires ':' !in name && Plain(v) && Stripped(v) && Plain(pad) && AllSpace(pad)
    ensures FieldValue(name + ": " + (v + pad)) == Ok(v)
  {
    PlainConcat(v, pad);
    AfterColon(name, v + pad);
    StripPadded([], v, pad);
    assert [] + v + pad == v + pad;
  }

  lemma NoBarConcat(a: string, b: string)
    requires '|' !in a && '|' !in b
    ensures '|' !in a + b
  {
    forall i | 0 <= i < |a + b| ensures (a + b)[i] != '|' {
      if i < |a| { assert a[i] in a; } else { assert b[i - |a|] in b; }
    }
  }

  /**
   * The deadline sort key of a row is its deadline whatever the name and
   * priority hold, because it reads the part after the LAST `|`.
   */
  lemma DeadlineKeyFormat(t: string, p: string, d: string)
    requires Plain(d) && Stripped(d)
    ensures DeadlineKey(Format(t, p, d)) == Ok(d)
  {
    LastBarPart(t, p, d);
    FieldNamesArePlain();
    FieldValueBare(" " + DeadlineField, d);
    DeadlineKeyOfField(Format(t, p, d), " " + DeadlineField + ": " + d, d);
  }

  /** A row whose last `|` part is `field`, of value `v`, has the deadline key `v`. */
  lemma DeadlineKeyOfField(row: string, field: string, v: string)
    requires var parts := Split(row, "|"); parts[|parts| - 1] == field
    requires FieldValue(field) == Ok(v)
    ensures DeadlineKey(row) == Ok(v)
  {
    var parts := Split(row, "|");
    assert DeadlineKey(row) == FieldValue(parts[|parts| - 1]);
  }

  /** A field written as its name, `": "` and a plain stripped value has that value. */
  lemma FieldValueBare(name: string, v: string)
    requires ':' !in name && Plain(v) && Stripped(v)
    ensures FieldValue(name + ": " + v) == Ok(v)
  {
    FieldValueOf(name, v, []);
    assert v + [] == v;
  }

  /** Split on `|`, a row whose deadline has no `|` has the deadline field last. */
  lemma LastBarPart(t: string, p: string, d: string)
    requires '|' !in d
    ensures var parts := Split(Format(t, p, d), "|");
      parts[|parts| - 1] == " " + DeadlineField + ": " + d
  {
    FieldNamesArePlain();
    var head := t + " | " + PriorityField + ": " + p + " ";
    var last := " " + DeadlineField + ": " + d;
    NoBarConcat(" " + DeadlineField, ": ");
    NoBarConcat(" " + DeadlineField + ": ", d);
    assert Format(t, p, d) == head + ['|'] + last;
    SplitLast(head, '|', last);
  }

  /** The row of a record: what `add_task` shows and what `load_tasks` rebuilds. */
  function RowOfRecord(r: Record): string {
    Format(r.task, r.priority, r.deadline)
  }

  /**
   * A well-formed record survives all three parsers: `save_tasks` gets it
   * back whole, the priority key is its label's rank and the deadline key is
   * its deadline.
   */
  lemma RecordRoundTrip(r: Record)
    requires WellFormed(r)
    ensures ParseRecord(RowOfRecord(r)) == Ok(r)
    ensures PriorityKey(RowOfRecord(r)).Ok? && Labels[PriorityKey(RowOfRecord(r)).value] == r.priority
    ensures DeadlineKey(RowOfRecord(r)) == Ok(r.deadline)
  {
    LabelsArePlain();
    IsoDateIsPlain(r.deadline);
    ParseFormat(r.task, r.priority, r.deadline);
    PriorityKeyFormat(r.task, r.priority, r.deadline);
    DeadlineKeyFormat(r.task, r.priority, r.deadline);
  }

  /**
   * Saving after loading gives back the records that were loaded: loading the
   * objects of well-formed records rebuilds one row per record and fails on
   * none, and the save parse of those rows returns the same records in the
   * same order.
   */
  lemma {:induction false} LoadSaveRoundTrip(records: seq<Record>)
    requires forall i :: 0 <= i < |records| ==> WellFormed(records[i])
    ensures var loaded := LoadRows(seq(|records|, i requires 0 <= i < |records| => ToObject(records[i])));
      loaded.failure.None?
      && loaded.rows == seq(|records|, i requires 0 <= i < |records| => RowOfRecord(records[i]))
      && SaveRecords(loaded.rows) == Ok(records)
  {
    var rows := seq(|records|, i requires 0 <= i < |records| => RowOfRecord(records[i]));
    LoadRecordObjects(records, rows);
    SaveRecordRows(records, rows);
  }

  /** Loading the objects of records rebuilds one row per record and fails on none. */
  lemma LoadRecordObjects(records: seq<Record>, rows: seq<string>)
    requires |rows| == |records| && forall i :: 0 <= i < |records| ==> rows[i] == RowOfRecord(records[i])
    ensures LoadRows(seq(|records|, i requires 0 <= i < |records| => ToObject(records[i]))) == Loaded(rows, None)
  {
    var objs := seq(|records|, i requires 0 <= i < |records| => ToObject(records[i]));
    var loaded := LoadRows(objs);
    forall k | 0 <= k < |objs| ensures RowOf(objs[k]) == Ok(rows[k]) {
    }
    assert loaded.failure.None?;
    assert loaded.rows == rows;
  }

  /** The save parse of the rows of well-formed records returns those records. */
  lemma SaveRecordRows(records: seq<Record>, rows: seq<string>)
    requires forall i :: 0 <= i < |records| ==> WellFormed(records[i])
    requires |rows| == |records| && forall i :: 0 <= i < |records| ==> rows[i] == RowOfRecord(records[i])
    ensures SaveRecords(rows) == Ok(records)
  {
    forall i | 0 <= i < |records| ensures ParseRecord(rows[i]) == Ok(records[i]) {
      RecordRoundTrip(records[i]);
    }
    assert SaveRecords(rows).Ok?;
    assert SaveRecords(rows).value == records;
  }

  /**
   * Why a name must not contain `|`: for a name `x | y` (say `a | b`),
   * saving the row raises `IndexError`, so the record is never saved.
   */
  lemma BarInNameBreaksSave(x: string, y: string, p: string, d: string)
    requires '|' !in x && Plain(y)
    ensures ParseRecord(Format(x + " | " + y, p, d)) == Err(IndexError)
  {
    var tail := PriorityField + ": " + p + " | " + DeadlineField + ": " + d;
    assert Format(x + " | " + y, p, d) == x + " | " + (y + " | " + tail);
    SplitAt(x, " | ", y + " | " + tail, 1);
    SplitAt(y, " | ", tail, 1);
    SplitWhole(y, ": ", 0);
  }

  /**
   * For the same name the priority sort key raises `IndexError` too, so
   * sorting by priority fails for the whole list.
   */
  lemma BarInNameBreaksPriorityKey(x: string, y: string, p: string, d: string)
    requires '|' !in x && Plain(y)
    ensures PriorityKey(Format(x + " | " + y, p, d)) == Err(IndexError)
  {
    var parts := Split(Format(x + " | " + y, p, d), "|");
    SecondBarPart(x, y, p, d);
    NoFieldValue(" " + y + " ");
    assert FieldValue(parts[1]) == Err(IndexError);
  }

  /**
   * When the text after the `|` of the name has the shape `y: z`, saving
   * raises nothing but writes the wrong record: the name loses its tail, the
   * priority becomes `z` and the deadline becomes the priority. For example
   * the name `a | b: c` is saved as task `a` with priority `c`.
   */
  lemma ColonInNameMisparsesSave(x: string, y: string, z: string, p: string, d: string)
    requires '|' !in x && Plain(y) && Plain(z) && Plain(p)
    ensures ParseRecord(Format(x + " | " + y + ": " + z, p, d)) == Ok(Record(x, z, p))
  {
    FieldNamesArePlain();
    var field := y + ": " + z;
    var pf := PriorityField + ": " + p;
    var df := DeadlineField + ": " + d;
    NoBarConcat(y, ": ");
    NoBarConcat(y + ": ", z);
    NoBarConcat(PriorityField, ": ");
    NoBarConcat(PriorityField + ": ", p);
    assert Format(x + " | " + y + ": " + z, p, d) == x + " | " + (field + " | " + (pf + " | " + df));
    SplitAt(x, " | ", field + " | " + (pf + " | " + df), 1);
    SplitAt(field, " | ", pf + " | " + df, 1);
    SplitAt(pf, " | ", df, 1);
    AfterColon(y, z);
    AfterColon(PriorityField, p);
  }

  /**
   * Likewise, when the text after the `|` of the name is `y: l`, the
   * priority sort key is looked up from `l`, whatever priority the row was
   * added with: a row added as high priority under the name `a | b: Низкий`
   * sorts as low.
   */
  lemma ColonInNameMisranks(x: string, y: string, l: string, p: string, d: string)
    requires '|' !in x && Plain(y) && Plain(l) && Stripped(l)
    ensures PriorityKey(Format(x + " | " + y + ": " + l, p, d)) == IndexOf(Labels, l)
  {
    ColonNameSecondPart(x, y, l, p, d);
    ColonFieldValue(y, l);
    PriorityKeyOfField(Format(x + " | " + y + ": " + l, p, d), l);
  }

  /** The name `a | b: c` is saved as task `a` with priority `c` and the priority as deadline. */
  lemma MisparseExample(p: string, d: string)
    requires Plain(p)
    ensures ParseRecord(Format("a | b: c", p, d)) == Ok(Record("a", "c", p))
  {
    assert "a | b: c" == "a" + " | " + "b" + ": " + "c";
    ColonInNameMisparsesSave("a", "b", "c", p, d);
  }

  /** A row added as high priority under the name `a | b: Низкий` has the rank of low. */
  lemma MisrankExample(d: string)
    ensures PriorityKey(Format("a | b: " + Low, High, d)) == Ok(0)
  {
    LabelsArePlain();
    assert "a | b: " + Low == "a" + " | " + "b" + ": " + Low;
    ColonInNameMisranks("a", "b", Low, High, d);
    assert IndexOf(Labels, Low) == Ok(0);
  }

  /** Split on `|`, the second part of a row named `x | y: l` is ` y: l `. */
  lemma ColonNameSecondPart(x: string, y: string, l: string, p: string, d: string)
    requires '|' !in x && Plain(y) && Plain(l)
    ensures var parts := Split(Format(x + " | " + y + ": " + l, p, d), "|");
      |parts| >= 2 && parts[1] == " " + y + ": " + (l + " ")
  {
    var field := y + ": " + l;
    assert x + " | " + y + ": " + l == x + " | " + field;
    NoBarConcat(y, ": ");
    NoBarConcat(y + ": ", l);
    SecondBarPart(x, field, p, d);
    assert " " + field + " " == " " + y + ": " + (l + " ");
  }

  /** A row whose second `|` part has the value `v` has the priority key of `v`. */
  lemma PriorityKeyOfField(row: string, v: string)
    requires var parts := Split(row, "|"); |parts| >= 2 && FieldValue(parts[1]) == Ok(v)
    ensures PriorityKey(row) == IndexOf(Labels, v)
  {
  }

  /** The field ` y: l ` has the value `l`. */
  lemma ColonFieldValue(y: string, l: string)
    requires Plain(y) && Plain(l) && Stripped(l)
    ensures FieldValue(" " + y + ": " + (l + " ")) == Ok(l)
  {
    PlainConcat(" ", y);
    FieldValueOf(" " + y, l, " ");
  }

  /** Split on `|`, the second part of a row named `x | y` is ` y `. */
  lemma SecondBarPart(x: string, y: string, p: string, d: string)
    requires '|' !in x && '|' !in y
    ensures var parts := Split(Format(x + " | " + y, p, d), "|");
      |parts| >= 2 && parts[1] == " " + y + " "
  {
    var tail := " " + PriorityField + ": " + p + " | " + DeadlineField + ": " + d;
    var mid := " " + y + " ";
    NoBarConcat(x, " ");
    NoBarConcat(" ", y);
    NoBarConcat(" " + y, " ");
    assert Format(x + " | " + y, p, d) == (x + " ") + "|" + (mid + "|" + tail);
    SplitAt(x + " ", "|", mid + "|" + tail, 0);
    SplitAt(mid, "|", tail, 0);
  }

  /** A field without `:` has no value. */
  lemma NoFieldValue(field: string)
    requires ':' !in field
    ensures FieldValue(field) == Err(IndexError)
  {
    SplitWhole(field, ": ", 0);
  }

  lemma PriorityLeIsTotalPreorder()
    ensures TotalPreorder(PriorityLe)
  {
  }

  lemma DeadlineLeIsTotalPreorder()
    ensures TotalPreorder(DeadlineLe)
  {
    forall a, b ensures DeadlineLe(a, b) || DeadlineLe(b, a) {
      StrLeTotal(DeadlineText(a), DeadlineText(b));
    }
    forall a, b, c | DeadlineLe(a, b) && DeadlineLe(b, c) ensures DeadlineLe(a, c) {
      StrLeTransitive(DeadlineText(a), DeadlineText(b), DeadlineText(c));
    }
  }

  /** Each element of a permutation of `rows` is one of the rows. */
  lemma FromRows(rows: seq<string>, s: seq<string>, i: int)
    requires multiset(s) == multiset(rows) && 0 <= i < |s|
    ensures exists j :: 0 <= j < |rows| && rows[j] == s[i]
  {
    assert s[i] in multiset(rows);
  }

  /**
   * Sorting by priority fails exactly when some row's priority key fails,
   * with the error of the first such row, and leaves no result. Otherwise it
   * returns a permutation of the rows in non-decreasing priority order, in
   * which rows of equal priority keep their order.
   */
  lemma PrioritySortedSpec(rows: seq<string>)
    ensures PrioritySorted(rows).Err? <==> exists i :: 0 <= i < |rows| && PriorityKey(rows[i]).Err?
    ensures PrioritySorted(rows).Err? ==>
      exists i :: (0 <= i < |rows| && PriorityKey(rows[i]) == Err(PrioritySorted(rows).error)
                   && forall j :: 0 <= j < i ==> PriorityKey(rows[j]).Ok?)
    ensures PrioritySorted(rows).Ok? ==> var s := PrioritySorted(rows).value;
      multiset(s) == multiset(rows)
      && (forall i :: 0 <= i < |s| ==> PriorityKey(s[i]).Ok?)
      && (forall i, j :: 0 <= i < j < |s| ==> PriorityKey(s[i]).value <= PriorityKey(s[j]).value)
      && (forall x :: Ties(s, PriorityLe, x) == Ties(rows, PriorityLe, x))
  {
    if PrioritySorted(rows).Ok? {
      var s := PrioritySorted(rows).value;
      PriorityLeIsTotalPreorder();
      SortSorted(rows, PriorityLe);
      SortPermutes(rows, PriorityLe);
      forall i | 0 <= i < |s| ensures PriorityKey(s[i]).Ok? {
        FromRows(rows, s, i);
      }
      forall x ensures Ties(s, PriorityLe, x) == Ties(rows, PriorityLe, x) {
        SortStable(rows, PriorityLe, x);
      }
    }
  }

  /**
   * Sorting by deadline fails exactly when some row's deadline key fails,
   * with the error of the first such row. Otherwise it returns a permutation
   * of the rows in non-decreasing string order of deadlines, in which rows
   * with equal deadlines keep their order.
   */
  lemma DeadlineSortedSpec(rows: seq<string>)
    ensures DeadlineSorted(rows).Err? <==> exists i :: 0 <= i < |rows| && DeadlineKey(rows[i]).Err?
    ensures DeadlineSorted(rows).Err? ==>
      exists i :: (0 <= i < |rows| && DeadlineKey(rows[i]) == Err(DeadlineSorted(rows).error)
                   && forall j :: 0 <= j < i ==> DeadlineKey(rows[j]).Ok?)
    ensures DeadlineSorted(rows).Ok? ==> var s := DeadlineSorted(rows).value;
      multiset(s) == multiset(rows)
      && (forall i :: 0 <= i < |s| ==> DeadlineKey(s[i]).Ok?)
      && (forall i, j :: 0 <= i < j < |s| ==> StrLe(DeadlineKey(s[i]).value, DeadlineKey(s[j]).value))
      && (forall x :: Ties(s, DeadlineLe, x) == Ties(rows, DeadlineLe, x))
  {
    if DeadlineSorted(rows).Ok? {
      var s := DeadlineSorted(rows).value;
      DeadlineLeIsTotalPreorder();
      SortSorted(rows, DeadlineLe);
      SortPermutes(rows, DeadlineLe);
      forall i | 0 <= i < |s| ensures DeadlineKey(s[i]).Ok? {
        FromRows(rows, s, i);
      }
      forall x ensures Ties(s, DeadlineLe, x) == Ties(rows, DeadlineLe, x) {
        SortStable(rows, DeadlineLe, x);
      }
    }
  }

  /** When every deadline is a `yyyy-MM-dd` date, sorting by deadline puts the rows in date order. */
  lemma DeadlineSortIsChronological(rows: seq<string>)
    requires forall i :: 0 <= i < |rows| ==> DeadlineKey(rows[i]).Ok? && IsIsoDate(DeadlineKey(rows[i]).value)
    ensures DeadlineSorted(rows).Ok?
    ensures var s := DeadlineSorted(rows).value;
      (forall i :: 0 <= i < |s| ==> DeadlineKey(s[i]).Ok? && IsIsoDate(DeadlineKey(s[i]).value))
      && forall i, j :: 0 <= i < j < |s| ==> OnOrBefore(DeadlineKey(s[i]).value, DeadlineKey(s[j]).value)
  {
    assert Collect(rows, DeadlineKey).Ok?;
    var s := Sort(rows, DeadlineLe);
    DeadlineLeIsTotalPreorder();
    SortSorted(rows, DeadlineLe);
    SortPermutes(rows, DeadlineLe);
    forall i | 0 <= i < |s| ensures DeadlineKey(s[i]).Ok? && IsIsoDate(DeadlineKey(s[i]).value) {
      FromRows(rows, s, i);
    }
    forall i, j | 0 <= i < j < |s| ensures OnOrBefore(DeadlineKey(s[i]).value, DeadlineKey(s[j]).value) {
      assert DeadlineLe(s[i], s[j]);
      StrLeIsChronological(DeadlineKey(s[i]).value, DeadlineKey(s[j]).value);
    }
  }

  lemma CollectThree<K>(a: string, b: string, c: string, f: string -> Result<K, Error>)
    requires f(a).Ok? && f(b).Ok? && f(c).Ok?
    ensures Collect([a, b, c], f).Ok?
  {
  }

  /**
   * Rows with the priorities high, low and medium (in that order) sort to
   * low, medium, high.
   */
  lemma PrioritySortExample(n1: string, n2: string, n3: string, d1: string, d2: string, d3: string)
    requires '|' !in n1 && '|' !in n2 && '|' !in n3
    ensures var a := Format(n1, High, d1);
      var b := Format(n2, Low, d2);
      var c := Format(n3, Medium, d3);
      PrioritySorted([a, b, c]) == Ok([b, c, a])
  {
    LabelsArePlain();
    assert Labels[2] == High && Labels[0] == Low && Labels[1] == Medium;
    assert IndexOf(Labels, High) == Ok(2) && IndexOf(Labels, Low) == Ok(0) && IndexOf(Labels, Medium) == Ok(1);
    PriorityKeyFormat(n1, High, d1);
    PriorityKeyFormat(n2, Low, d2);
    PriorityKeyFormat(n3, Medium, d3);
    PrioritiesRotated(Format(n1, High, d1), Format(n2, Low, d2), Format(n3, Medium, d3));
  }

  lemma PrioritiesRotated(a: string, b: string, c: string)
    requires PriorityKey(a) == Ok(2) && PriorityKey(b) == Ok(0) && PriorityKey(c) == Ok(1)
    ensures PrioritySorted([a, b, c]) == Ok([b, c, a])
  {
    assert PriorityLe(b, c) && !PriorityLe(a, b) && !PriorityLe(a, c);
    CollectThree(a, b, c, PriorityKey);
    SortThreeRotated(a, b, c, PriorityLe);
  }

  /**
   * Rows due 2024-12-31, 2024-11-30 and 2024-10-31 (in that order) sort to
   * the earliest first.
   */
  lemma DeadlineSortExample(n1: string, n2: string, n3: string, p1: string, p2: string, p3: string)
    ensures var a := Format(n1, p1, "2024-12-31");
      var b := Format(n2, p2, "2024-11-30");
      var c := Format(n3, p3, "2024-10-31");
      DeadlineSorted([a, b, c]) == Ok([c, b, a])
  {
    ExampleDates();
    DeadlinesDescending(n1, n2, n3, p1, p2, p3, "2024-12-31", "2024-11-30", "2024-10-31");
  }

  /** The three dates of the example are plain, stripped, and in strictly decreasing order. */
  lemma ExampleDates()
    ensures var d1, d2, d3 := "2024-12-31", "2024-11-30", "2024-10-31";
      Plain(d1) && Plain(d2) && Plain(d3) && Stripped(d1) && Stripped(d2) && Stripped(d3)
      && !StrLe(d2, d3) && !StrLe(d1, d3) && !StrLe(d1, d2)
  {
    var d1, d2, d3 := "2024-12-31", "2024-11-30", "2024-10-31";
    IsoDateIsPlain(d1);
    IsoDateIsPlain(d2);
    IsoDateIsPlain(d3);
    ExampleDatesOrder();
  }

  lemma ExampleDatesOrder()
    ensures !StrLe("2024-11-30", "2024-10-31") && !StrLe("2024-12-31", "2024-10-31")
    ensures !StrLe("2024-12-31", "2024-11-30")
  {
    var y := "2024-";
    assert "2024-12-31" == y + "12-31" && "2024-11-30" == y + "11-30" && "2024-10-31" == y + "10-31";
    StrLeCommonPrefix(y, "11-30", "10-31");
    StrLeCommonPrefix(y, "12-31", "10-31");
    StrLeCommonPrefix(y, "12-31", "11-30");
  }

  lemma DeadlinesDescending(n1: string, n2: string, n3: string, p1: string, p2: string, p3: string,
                            d1: string, d2: string, d3: string)
    requires Plain(d1) && Plain(d2) && Plain(d3) && Stripped(d1) && Stripped(d2) && Stripped(d3)
    requires !StrLe(d2, d3) && !StrLe(d1, d3) && !StrLe(d1, d2)
    ensures DeadlineSorted([Format(n1, p1, d1), Format(n2, p2, d2), Format(n3, p3, d3)])
         == Ok([Format(n3, p3, d3), Format(n2, p2, d2), Format(n1, p1, d1)])
  {
    var a := Format(n1, p1, d1);
    var b := Format(n2, p2, d2);
    var c := Format(n3, p3, d3);
    DeadlineKeyFormat(n1, p1, d1);
    DeadlineKeyFormat(n2, p2, d2);
    DeadlineKeyFormat(n3, p3, d3);
    assert !DeadlineLe(b, c) && !DeadlineLe(a, c) && !DeadlineLe(a, b);
    CollectThree(a, b, c, DeadlineKey);
    SortThreeReversed(a, b, c, DeadlineLe);
  }
}
