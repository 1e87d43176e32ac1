/** The serialisers of `examples/serialization/serialization_demo.cpp`: the JSON-like
    value tree with its pretty-printer, the CSV table writer and the length-prefixed
    binary string encoding. */
module Serialization {
  import opened Wrappers
  import opened Seqs

  // ---------------------------------------------------------------------------
  // JSON values
  // ---------------------------------------------------------------------------

  /** A JSON value. A number carries its already formatted text, because the demo
      formats a `double` through an output stream. An object keeps its members in
      the order `std::map` iterates them; `Add` keeps that order strictly ascending. */
  datatype Json =
    | JString(text: string)
    | JNumber(rendered: string)
    | JBool(value: bool)
    | JNull
    | JArray(items: seq<Json>)
    | JObject(members: seq<Member>)

  datatype Member = Member(key: string, value: Json)

  /** `std::string`'s `operator<`: lexicographic order on characters. */
  predicate Less(a: string, b: string)
  {
    if |a| == 0 then |b| > 0
    else if |b| == 0 then false
    else if a[0] != b[0] then a[0] < b[0]
    else Less(a[1..], b[1..])
  }

  lemma {:induction false} LessIrreflexive(a: string)
    ensures !Less(a, a)
    decreases |a|
  {
    if |a| > 0 {
      LessIrreflexive(a[1..]);
    }
  }

  lemma {:induction false} LessTransitive(a: string, b: string, c: string)
    requires Less(a, b) && Less(b, c)
    ensures Less(a, c)
    decreases |a|
  {
    if |a| > 0 && a[0] == b[0] && b[0] == c[0] {
      LessTransitive(a[1..], b[1..], c[1..]);
    }
  }

  /** Any two different strings are ordered one way or the other. */
  lemma {:induction false} LessTotal(a: string, b: string)
    ensures a == b || Less(a, b) || Less(b, a)
    decreases |a|
  {
    if |a| > 0 && |b| > 0 && a[0] == b[0] {
      LessTotal(a[1..], b[1..]);
      if a[1..] == b[1..] {
        assert a == [a[0]] + a[1..] && b == [b[0]] + b[1..];
      }
    }
  }

  /** The keys of an object in iteration order. */
  function Keys(ms: seq<Member>): (r: seq<string>)
    ensures |r| == |ms|
    ensures forall i :: 0 <= i < |ms| ==> r[i] == ms[i].key
  {
    if |ms| == 0 then [] else [ms[0].key] + Keys(ms[1..])
  }

  /** Keys strictly ascending, as `std::map` keeps them. */
  predicate Sorted(ms: seq<Member>)
  {
    forall i, j :: 0 <= i < j < |ms| ==> Less(ms[i].key, ms[j].key)
  }

  /** The value stored under `key`, if any. */
  function Lookup(ms: seq<Member>, key: string): Option<Json>
  {
    if |ms| == 0 then None
    else if ms[0].key == key then Some(ms[0].value)
    else Lookup(ms[1..], key)
  }

  /** `JsonObjectValue::add`, that is `value[key] = val` on a `std::map`: an existing key
      gets the new value in place, a new key is inserted at its place in key order. */
  function Add(ms: seq<Member>, key: string, val: Json): (r: seq<Member>)
    ensures Lookup(r, key) == Some(val)
    ensures forall k :: k != key ==> Lookup(r, k) == Lookup(ms, k)
    ensures forall i :: 0 <= i < |r| ==> r[i].key == key || exists j :: 0 <= j < |ms| && ms[j].key == r[i].key
    ensures Sorted(ms) ==> Sorted(r)
    ensures Sorted(ms) ==> |r| == (if Lookup(ms, key).Some? then |ms| else |ms| + 1)
  {
    if |ms| == 0 then [Member(key, val)]
    else if ms[0].key == key then [Member(key, val)] + ms[1..]
    else if Less(key, ms[0].key) then
      AddBeforeHead(ms, key, val);
      [Member(key, val)] + ms
    else
      var tail := Add(ms[1..], key, val);
      AddAfterHead(ms, key, val, tail);
      [ms[0]] + tail
  }

  /** A sorted object whose first key is greater than `key` holds no `key`, and stays
      sorted with `key` in front. */
  lemma AddBeforeHead(ms: seq<Member>, key: string, val: Json)
    requires |ms| > 0 && Less(key, ms[0].key)
    ensures Sorted(ms) ==> Sorted([Member(key, val)] + ms) && Lookup(ms, key).None?
  {
    if Sorted(ms) {
      forall j | 0 <= j < |ms|
        ensures Less(key, ms[j].key)
      {
        if j > 0 {
          LessTransitive(key, ms[0].key, ms[j].key);
        }
      }
      LookupAbsent(ms, key);
    }
  }

  /** A key below every key of the object is not stored in it. */
  lemma {:induction false} LookupAbsent(ms: seq<Member>, key: string)
    requires forall j :: 0 <= j < |ms| ==> Less(key, ms[j].key)
    ensures Lookup(ms, key).None?
    decreases |ms|
  {
    if |ms| > 0 {
      LessIrreflexive(key);
      LookupAbsent(ms[1..], key);
    }
  }

  /** Putting the old head back in front of the updated tail keeps the order. */
  lemma AddAfterHead(ms: seq<Member>, key: string, val: Json, tail: seq<Member>)
    requires |ms| > 0 && ms[0].key != key && !Less(key, ms[0].key)
    requires forall i :: 0 <= i < |tail| ==> tail[i].key == key || exists j :: 0 <= j < |ms[1..]| && ms[1..][j].key == tail[i].key
    requires Sorted(ms[1..]) ==> Sorted(tail)
    ensures Sorted(ms) ==> Sorted([ms[0]] + tail)
  {
    if Sorted(ms) {
      LessTotal(key, ms[0].key);
      assert Sorted(ms[1..]);
      var r := [ms[0]] + tail;
      forall i, j | 0 <= i < j < |r|
        ensures Less(r[i].key, r[j].key)
      {
        if i == 0 {
          var t := tail[j - 1];
          if t.key != key {
            var k :| 0 <= k < |ms[1..]| && ms[1..][k].key == t.key;
            assert ms[k + 1].key == t.key;
          }
        }
      }
    }
  }

  /** The object a sequence of `add` calls builds, starting from an empty map. */
  function AddAll(ms: seq<Member>, pairs: seq<Member>): seq<Member>
    decreases |pairs|
  {
    if |pairs| == 0 then ms
    else AddAll(Add(ms, pairs[0].key, pairs[0].value), pairs[1..])
  }

  /** Whatever order the keys are added in, the object's members come out in strictly
      ascending key order, and each key holds the value added last for it. */
  lemma {:induction false} AddAllSortedAndLast(ms: seq<Member>, pairs: seq<Member>, key: string)
    requires Sorted(ms)
    ensures Sorted(AddAll(ms, pairs))
    ensures Lookup(AddAll(ms, pairs), key) == LastValue(pairs, key, Lookup(ms, key))
    decreases |pairs|
  {
    if |pairs| > 0 {
      var ms' := Add(ms, pairs[0].key, pairs[0].value);
      AddAllSortedAndLast(ms', pairs[1..], key);
      LastValueCons(pairs, key, Lookup(ms, key));
    }
  }

  /** The value of the last pair with key `key`, or `dflt` if there is none. */
  function LastValue(pairs: seq<Member>, key: string, dflt: Option<Json>): Option<Json>
  {
    if |pairs| == 0 then dflt
    else if pairs[|pairs| - 1].key == key then Some(pairs[|pairs| - 1].value)
    else LastValue(pairs[..|pairs| - 1], key, dflt)
  }

  lemma {:induction false} LastValueCons(pairs: seq<Member>, key: string, dflt: Option<Json>)
    requires |pairs| > 0
    ensures LastValue(pairs, key, dflt)
         == LastValue(pairs[1..], key, if pairs[0].key == key then Some(pairs[0].value) else dflt)
    decreases |pairs|
  {
    if |pairs| > 1 {
      var n := |pairs|;
      assert pairs[1..][..n - 2] == pairs[..n - 1][1..];
      LastValueCons(pairs[..n - 1], key, dflt);
    }
  }

  // ---------------------------------------------------------------------------
  // Pretty-printing
  // ---------------------------------------------------------------------------

  /** `toString(indent)` of every value kind, stated through `Join`: the elements of a
      non-empty array (members of a non-empty object) each on their own line, indented
      two more spaces, separated by `,` line breaks, then the closing bracket at
      `indent` spaces. A string is quoted with no escaping of its contents. */
  function Render(v: Json, indent: nat): string
    decreases v, 1
  {
    match v
    case JString(text) => "\"" + text + "\""
    case JNumber(rendered) => rendered
    case JBool(b) => if b then "true" else "false"
    case JNull => "null"
    case JArray(items) =>
      if |items| == 0 then "[]"
      else "[\n" + Join(ItemLines(v, indent + 2), ",\n") + "\n" + Repeat(' ', indent) + "]"
    case JObject(members) =>
      if |members| == 0 then "{}"
      else "{\n" + Join(MemberLines(v, indent + 2), ",\n") + "\n" + Repeat(' ', indent) + "}"
  }

  /** One line per array element: the indentation and the element rendered at it. */
  function ItemLines(v: Json, ind: nat): (r: seq<string>)
    requires v.JArray?
    ensures |r| == |v.items|
    decreases v, 0
  {
    seq(|v.items|, k requires 0 <= k < |v.items| => Repeat(' ', ind) + Render(v.items[k], ind))
  }

  /** One line per object member: the indentation, the quoted key, `": "` and the value. */
  function MemberLines(v: Json, ind: nat): (r: seq<string>)
    requires v.JObject?
    ensures |r| == |v.members|
    decreases v, 0
  {
    seq(|v.members|, k requires 0 <= k < |v.members| =>
      Repeat(' ', ind) + "\"" + v.members[k].key + "\": " + Render(v.members[k].value, ind))
  }

  /** The loop body's effect: `i` lines written, followed by the separator that comes after
      line `i` (a comma unless it is the last line, then a line break). */
  function LinesWritten(lines: seq<string>, i: nat): string
    requires 0 < i <= |lines|
  {
    Join(lines[..i], ",\n") + (if i < |lines| then ",\n" else "\n")
  }

  lemma LinesWrittenStep(lines: seq<string>, i: nat, before: string)
    requires i < |lines|
    requires before == (if i == 0 then [] else LinesWritten(lines, i))
    ensures before + lines[i] + (if i < |lines| - 1 then "," else "") + "\n" == LinesWritten(lines, i + 1)
  {
    assert lines[..i + 1][..i] == lines[..i];
    if i == 0 {
      assert lines[..1] == [lines[0]];
    }
  }

  /** `JsonArrayValue::toString` as the demo writes it: a loop that appends each element
      line, a comma after all but the last and a line break after each. */
  method ArrayToString(items: seq<Json>, indent: nat) returns (result: string)
    ensures |items| == 0 ==> result == "[]"
    ensures |items| > 0 ==> result == "[\n" + Join(ItemLines(JArray(items), indent + 2), ",\n") + "\n" + Repeat(' ', indent) + "]"
  {
    if |items| == 0 {
      return "[]";
    }
    ghost var lines := ItemLines(JArray(items), indent + 2);
    var indentStr := Repeat(' ', indent + 2);
    var body: string := [];
    var i := 0;
    while i < |items|
      invariant i <= |items|
      invariant body == (if i == 0 then [] else LinesWritten(lines, i))
    {
      LinesWrittenStep(lines, i, body);
      body := body + (indentStr + Render(items[i], indent + 2));
      if i < |items| - 1 {
        body := body + ",";
      }
      body := body + "\n";
      i := i + 1;
    }
    assert lines[..i] == lines;
    result := "[\n" + body + Repeat(' ', indent) + "]";
  }

  /** `JsonObjectValue::toString` as the demo writes it: the map is walked in key order and
      the comma is written when the advanced iterator is not yet at the end. */
  method ObjectToString(members: seq<Member>, indent: nat) returns (result: string)
    ensures |members| == 0 ==> result == "{}"
    ensures |members| > 0 ==> result == "{\n" + Join(MemberLines(JObject(members), indent + 2), ",\n") + "\n" + Repeat(' ', indent) + "}"
  {
    if |members| == 0 {
      return "{}";
    }
    ghost var lines := MemberLines(JObject(members), indent + 2);
    var indentStr := Repeat(' ', indent + 2);
    var body: string := [];
    var it := 0;
    while it < |members|
      invariant it <= |members|
      invariant body == (if it == 0 then [] else LinesWritten(lines, it))
    {
      LinesWrittenStep(lines, it, body);
      var m := members[it];
      body := body + (indentStr + "\"" + m.key + "\": " + Render(m.value, indent + 2));
      it := it + 1;
      if it < |members| {
        body := body + ",";
      }
      body := body + "\n";
    }
    assert lines[..it] == lines;
    result := "{\n" + body + Repeat(' ', indent) + "}";
  }

  /** `Person::toJson`: four `add` calls on an empty object; the number texts are taken
      as given. */
  function PersonToJson(name: string, age: string, height: string, hobbies: seq<string>): Json
  {
    var hobbyItems := seq(|hobbies|, i requires 0 <= i < |hobbies| => JString(hobbies[i]));
    var withName := Add([], "name", JString(name));
    var withAge := Add(withName, "age", JNumber(age));
    var withHeight := Add(withAge, "height", JNumber(height));
    JObject(Add(withHeight, "hobbies", JArray(hobbyItems)))
  }

  /** `add` of a key below the current first key puts it in front. */
  lemma AddInFront(ms: seq<Member>, key: string, val: Json)
    requires |ms| == 0 || Less(key, ms[0].key)
    ensures Add(ms, key, val) == [Member(key, val)] + ms
  {
    if |ms| > 0 {
      LessIrreflexive(key);
    }
  }

  /** `add` of a key above the current first key keeps that member in front. */
  lemma AddBehind(ms: seq<Member>, key: string, val: Json)
    requires |ms| > 0 && Less(ms[0].key, key)
    ensures Add(ms, key, val) == [ms[0]] + Add(ms[1..], key, val)
  {
    LessIrreflexive(key);
    if Less(key, ms[0].key) {
      LessTransitive(key, ms[0].key, key);
    }
  }

  /** `add` of a key that falls between the second and the third member. */
  lemma AddThird(x: Member, y: Member, z: Member, key: string, val: Json)
    requires Less(x.key, key) && Less(y.key, key) && Less(key, z.key)
    ensures Add([x, y, z], key, val) == [x, y, Member(key, val), z]
  {
    AddBehind([x, y, z], key, val);
    assert [x, y, z][1..] == [y, z];
    AddBehind([y, z], key, val);
    assert [y, z][1..] == [z];
    AddInFront([z], key, val);
  }

  /** `add` of a key that falls between the first and the second member. */
  lemma AddSecond(x: Member, z: Member, key: string, val: Json)
    requires Less(x.key, key) && Less(key, z.key)
    ensures Add([x, z], key, val) == [x, Member(key, val), z]
  {
    AddBehind([x, z], key, val);
    assert [x, z][1..] == [z];
    AddInFront([z], key, val);
  }

  /** The members `Person::toJson` adds, in the order it adds them. */
  lemma PersonMembers(a: Json, b: Json, c: Json, d: Json)
    ensures Add(Add(Add(Add([], "name", a), "age", b), "height", c), "hobbies", d)
         == [Member("age", b), Member("height", c), Member("hobbies", d), Member("name", a)]
  {
    AddInFront([], "name", a);
    assert Less("age", "name");
    AddInFront([Member("name", a)], "age", b);
    assert Less("age", "height") && Less("height", "name");
    AddSecond(Member("age", b), Member("name", a), "height", c);
    assert Less("age", "hobbies") && Less("height", "hobbies") && Less("hobbies", "name");
    AddThird(Member("age", b), Member("height", c), Member("name", a), "hobbies", d);
  }

  /** The person object lists its members as `age`, `height`, `hobbies`, `name`: key order,
      not the order in which they were added. */
  lemma PersonKeyOrder(name: string, age: string, height: string, hobbies: seq<string>)
    ensures var keys := Keys(PersonToJson(name, age, height, hobbies).members);
            |keys| == 4 && keys[0] == "age" && keys[1] == "height" && keys[2] == "hobbies" && keys[3] == "name"
  {
    var hobbyItems := seq(|hobbies|, i requires 0 <= i < |hobbies| => JString(hobbies[i]));
    var a, b, c, d := JString(name), JNumber(age), JNumber(height), JArray(hobbyItems);
    PersonMembers(a, b, c, d);
    var ms := PersonToJson(name, age, height, hobbies).members;
    assert ms == [Member("age", b), Member("height", c), Member("hobbies", d), Member("name", a)];
    assert ms[0].key == "age" && ms[1].key == "height" && ms[2].key == "hobbies" && ms[3].key == "name";
  }

  // ---------------------------------------------------------------------------
  // CSV
  // ---------------------------------------------------------------------------

  /** A field containing a comma is wrapped in double quotes; any other is written as is. */
  function CsvField(f: string): string
  {
    if ',' in f then "\"" + f + "\"" else f
  }

  function CsvFields(row: seq<string>): (r: seq<string>)
    ensures |r| == |row|
    ensures forall i :: 0 <= i < |row| ==> r[i] == CsvField(row[i])
  {
    seq(|row|, i requires 0 <= i < |row| => CsvField(row[i]))
  }

  /** Reference rendering of one row: the fields joined by commas, then a line break. */
  function CsvRow(row: seq<string>): string
  {
    Join(CsvFields(row), ",") + "\n"
  }

  /** Reference rendering of a table: its rows one after another. */
  function CsvTable(table: seq<seq<string>>): string
  {
    if |table| == 0 then [] else CsvTable(table[..|table| - 1]) + CsvRow(table[|table| - 1])
  }

  /** The inner loop of `CsvSerializer::serializeTable`: each field (quoted if it contains
      a comma) followed by a comma unless it is the row's last. */
  method SerializeRow(row: seq<string>) returns (line: string)
    ensures line == Join(CsvFields(row), ",")
  {
    ghost var fields := CsvFields(row);
    line := [];
    var i := 0;
    while i < |row|
      invariant i <= |row|
      invariant line == (if i == 0 then [] else FieldsWritten(fields, i))
    {
      FieldsWrittenStep(fields, i, line);
      var field := if ',' in row[i] then "\"" + row[i] + "\"" else row[i];
      line := line + field;
      if i < |row| - 1 {
        line := line + ",";
      }
      i := i + 1;
    }
    assert fields[..i] == fields;
  }

  /** The first `i` fields of a row written, with the comma that follows field `i`
      unless it is the last. */
  function FieldsWritten(fields: seq<string>, i: nat): string
    requires 0 < i <= |fields|
  {
    Join(fields[..i], ",") + (if i < |fields| then "," else "")
  }

  lemma FieldsWrittenStep(fields: seq<string>, i: nat, before: string)
    requires i < |fields|
    requires before == (if i == 0 then [] else FieldsWritten(fields, i))
    ensures before + fields[i] + (if i < |fields| - 1 then "," else "") == FieldsWritten(fields, i + 1)
  {
    assert fields[..i + 1][..i] == fields[..i];
    if i == 0 {
      assert fields[..1] == [fields[0]];
    }
  }

  /** `CsvSerializer::serializeTable`: every row, including an empty one, is written
      followed by a line break. */
  method SerializeTable(table: seq<seq<string>>) returns (out: string)
    ensures out == CsvTable(table)
  {
    out := [];
    var r := 0;
    while r < |table|
      invariant r <= |table|
      invariant out == CsvTable(table[..r])
    {
      var line := SerializeRow(table[r]);
      out := out + line + "\n";
      assert table[..r + 1][..r] == table[..r];
      assert CsvTable(table[..r + 1]) == CsvTable(table[..r]) + CsvRow(table[r]);
      r := r + 1;
    }
    assert table[..r] == table;
  }

  /** The first index of `c` in `s`, or `|s|` when there is none. */
  function IndexOf(s: string, c: char): (r: nat)
    ensures r <= |s|
    ensures r < |s| ==> s[r] == c
    ensures forall k :: 0 <= k < r ==> s[k] != c
  {
    if |s| == 0 then 0 else if s[0] == c then 0 else 1 + IndexOf(s[1..], c)
  }

  /** Reads back the fields of one line: a field that starts with a quote runs to the
      next quote, any other field runs to the next comma. */
  function ParseFields(line: string): seq<string>
    decreases |line|
  {
    if |line| > 0 && line[0] == '"' then
      var q := 1 + IndexOf(line[1..], '"');
      var rest := if q < |line| then line[q + 1..] else [];
      if |rest| == 0 then [line[1..q]] else [line[1..q]] + ParseFields(rest[1..])
    else
      var c := IndexOf(line, ',');
      if c == |line| then [line] else [line[..c]] + ParseFields(line[c + 1..])
  }

  /** Reads back a table: one row per line. */
  function ParseTable(text: string): seq<seq<string>>
    decreases |text|
  {
    if |text| == 0 then []
    else
      var n := IndexOf(text, '\n');
      [ParseFields(text[..n])] + ParseTable(if n < |text| then text[n + 1..] else [])
  }

  /** A field the writer can round-trip: no quote and no line break inside. */
  predicate CleanField(f: string)
  {
    '"' !in f && '\n' !in f
  }

  lemma Assoc3<T>(a: seq<T>, b: seq<T>, c: seq<T>)
    ensures a + b + c == a + (b + c)
  {
  }

  /** Past a prefix free of `c`, the search continues in what follows. */
  lemma {:induction false} IndexOfAppend(a: string, b: string, c: char)
    requires c !in a
    ensures IndexOf(a + b, c) == |a| + IndexOf(b, c)
    decreases |a|
  {
    if |a| > 0 {
      assert (a + b)[1..] == a[1..] + b;
      assert (a + b)[0] == a[0];
      IndexOfAppend(a[1..], b, c);
    } else {
      assert a + b == b;
    }
  }

  lemma IndexOfPast(a: string, c: char, b: string)
    requires c !in a
    ensures IndexOf(a + [c] + b, c) == |a|
  {
    var s := a + [c] + b;
    assert s[|a|] == c;
    assert forall k :: 0 <= k < |a| ==> s[k] == a[k];
  }

  /** One field written and followed by `after`, where `after` is empty or starts with
      a comma, is read back as that field followed by whatever `after[1..]` holds. */
  lemma ParseFieldStep(f: string, after: string)
    requires CleanField(f)
    requires |after| == 0 || after[0] == ','
    ensures ParseFields(CsvField(f) + after)
         == [f] + (if |after| == 0 then [] else ParseFields(after[1..]))
  {
    if ',' in f {
      ParseQuoted(f, after);
    } else {
      ParsePlain(f, after);
    }
  }

  lemma ParseQuoted(f: string, after: string)
    requires CleanField(f) && ',' in f
    requires |after| == 0 || after[0] == ','
    ensures ParseFields(CsvField(f) + after)
         == [f] + (if |after| == 0 then [] else ParseFields(after[1..]))
  {
    var quote := ['"'];
    var line := CsvField(f) + after;
    assert line == quote + (f + (quote + after)) by {
      Assoc3(quote, f, quote);
      Assoc3(quote, f + quote, after);
      Assoc3(f, quote, after);
    }
    assert line[1..] == f + (quote + after);
    IndexOfAppend(f, quote + after, '"');
    var q := 1 + IndexOf(line[1..], '"');
    assert q == |f| + 1 < |line|;
    assert line[1..q] == (f + (quote + after))[..|f|];
    assert line[q + 1..] == (quote + after)[1..];
  }

  lemma ParsePlain(f: string, after: string)
    requires CleanField(f) && ',' !in f
    requires |after| == 0 || after[0] == ','
    ensures ParseFields(CsvField(f) + after)
         == [f] + (if |after| == 0 then [] else ParseFields(after[1..]))
  {
    var line := f + after;
    assert CsvField(f) == f;
    assert |line| > 0 ==> line[0] != '"';
    if |after| == 0 {
      assert line == f;
      assert IndexOf(line, ',') == |line|;
    } else {
      assert line == f + [','] + after[1..];
      IndexOfPast(f, ',', after[1..]);
      var c := IndexOf(line, ',');
      assert c == |f|;
      assert line[..c] == f;
      assert line[c + 1..] == after[1..];
      assert ParseFields(line) == [line[..c]] + ParseFields(line[c + 1..]);
    }
  }

  lemma CsvFieldsCons(row: seq<string>)
    requires |row| > 0
    ensures CsvFields(row) == [CsvField(row[0])] + CsvFields(row[1..])
  {
  }

  /** The first field of a row of two or more is read back, and reading continues after
      its comma. */
  lemma ParseRowStep(row: seq<string>)
    requires |row| > 1
    requires CleanField(row[0])
    ensures ParseFields(Join(CsvFields(row), ",")) == [row[0]] + ParseFields(Join(CsvFields(row[1..]), ","))
  {
    var a := CsvField(row[0]);
    var tailFields := CsvFields(row[1..]);
    CsvFieldsCons(row);
    JoinCons(a, tailFields, ",");
    var rest := Join(tailFields, ",");
    Assoc3(a, ",", rest);
    ParseFieldStep(row[0], "," + rest);
    assert ("," + rest)[1..] == rest;
  }

  lemma {:induction false} ParseRow(row: seq<string>)
    requires |row| > 0
    requires forall i :: 0 <= i < |row| ==> CleanField(row[i])
    ensures ParseFields(Join(CsvFields(row), ",")) == row
    decreases |row|
  {
    if |row| == 1 {
      assert CsvFields(row) == [CsvField(row[0])];
      ParseFieldStep(row[0], []);
      assert CsvField(row[0]) + [] == CsvField(row[0]);
    } else {
      ParseRowStep(row);
      ParseRow(row[1..]);
      assert row == [row[0]] + row[1..];
    }
  }

  lemma {:induction false} CsvTableCons(row: seq<string>, rest: seq<seq<string>>)
    ensures CsvTable([row] + rest) == CsvRow(row) + CsvTable(rest)
    decreases |rest|
  {
    if |rest| == 0 {
      assert ([row] + rest)[..0] == [];
    } else {
      var t := [row] + rest;
      assert t[..|t| - 1] == [row] + rest[..|rest| - 1];
      assert t[|t| - 1] == rest[|rest| - 1];
      CsvTableCons(row, rest[..|rest| - 1]);
      assert CsvTable(t) == CsvTable(t[..|t| - 1]) + CsvRow(t[|t| - 1]);
      assert CsvTable(rest) == CsvTable(rest[..|rest| - 1]) + CsvRow(rest[|rest| - 1]);
    }
  }

  /** A written row is read back as one line, and reading continues after it. */
  lemma ParseTableStep(row: seq<string>, after: string)
    requires |row| > 0
    requires forall i :: 0 <= i < |row| ==> CleanField(row[i])
    ensures ParseTable(CsvRow(row) + after) == [row] + ParseTable(after)
  {
    var line := Join(CsvFields(row), ",");
    forall i | 0 <= i < |row|
      ensures '\n' !in CsvFields(row)[i]
    {
      assert CleanField(row[i]);
    }
    JoinAvoids(CsvFields(row), ",", '\n');
    var text := CsvRow(row) + after;
    assert text == line + ['\n'] + after;
    IndexOfPast(line, '\n', after);
    assert text[..|line|] == line;
    assert text[|line| + 1..] == after;
    ParseRow(row);
  }

  /** A table whose rows are all non-empty and whose fields hold no quote and no line
      break reads back as itself. */
  lemma {:induction false} CsvRoundTrip(table: seq<seq<string>>)
    requires forall r :: 0 <= r < |table| ==> |table[r]| > 0
    requires forall r, i :: 0 <= r < |table| && 0 <= i < |table[r]| ==> CleanField(table[r][i])
    ensures ParseTable(CsvTable(table)) == table
    decreases |table|
  {
    if |table| > 0 {
      assert table == [table[0]] + table[1..];
      CsvTableCons(table[0], table[1..]);
      ParseTableStep(table[0], CsvTable(table[1..]));
      CsvRoundTrip(table[1..]);
    }
  }

  /** Why the round trip needs non-empty rows: an empty row and a row holding one empty
      field are both written as a bare line break. */
  lemma EmptyRowAmbiguous()
    ensures CsvTable([[]]) == CsvTable([[""]]) == "\n"
  {
    var none: seq<seq<string>> := [[]];
    var blank: seq<seq<string>> := [[""]];
    assert none[..0] == [] && blank[..0] == [];
  }

  // ---------------------------------------------------------------------------
  // Binary
  // ---------------------------------------------------------------------------

  newtype byte = x: int | 0 <= x < 256

  /** 256 to the power `w`: one more than the largest value `w` bytes can hold. */
  function Pow256(w: nat): (r: nat)
    ensures r > 0
  {
    if w == 0 then 1 else 256 * Pow256(w - 1)
  }

  /** The `w` bytes of an unsigned value as a little-endian machine stores them, which is
      what `out.write(reinterpret_cast<const char*>(&value), sizeof(T))` emits. */
  function EncodeLE(x: nat, w: nat): (r: seq<byte>)
    requires x < Pow256(w)
    ensures |r| == w
  {
    if w == 0 then []
    else
      DivBound(x, Pow256(w - 1));
      [(x % 256) as byte] + EncodeLE(x / 256, w - 1)
  }

  /** The unsigned value that little-endian bytes stand for. */
  function DecodeLE(bs: seq<byte>): (r: nat)
    ensures r < Pow256(|bs|)
  {
    if |bs| == 0 then 0
    else
      var rest := DecodeLE(bs[1..]);
      MulBound(bs[0] as int, rest, Pow256(|bs| - 1));
      bs[0] as int + 256 * rest
  }

  lemma DivBound(x: nat, p: nat)
    requires x < 256 * p
    ensures x / 256 < p
  {
  }

  lemma MulBound(b: int, rest: nat, p: nat)
    requires 0 <= b < 256 && rest < p
    ensures b + 256 * rest < 256 * p
  {
  }

  /** Decoding what was encoded gives the value back. */
  lemma {:induction false} DecodeEncode(x: nat, w: nat)
    requires x < Pow256(w)
    ensures DecodeLE(EncodeLE(x, w)) == x
    decreases w
  {
    if w > 0 {
      var bs := EncodeLE(x, w);
      assert bs[1..] == EncodeLE(x / 256, w - 1);
      DecodeEncode(x / 256, w - 1);
    }
  }

  /** Encoding what was decoded gives the bytes back: every byte pattern of width `w`
      is the encoding of exactly one value. */
  lemma {:induction false} EncodeDecode(bs: seq<byte>)
    ensures EncodeLE(DecodeLE(bs), |bs|) == bs
    decreases |bs|
  {
    if |bs| > 0 {
      var x := DecodeLE(bs);
      var rest := DecodeLE(bs[1..]);
      assert x == bs[0] as int + 256 * rest;
      assert x % 256 == bs[0] as int && x / 256 == rest;
      EncodeDecode(bs[1..]);
      assert bs == [bs[0]] + bs[1..];
    }
  }

  /** `sizeof(size_t)` on the 64-bit targets the demo is built for. */
  const SizeWidth: nat := 8

  /** `sizeof(int)`. */
  const IntWidth: nat := 4

  datatype ReadError = ShortRead

  /** `in.read(buf, n)`: the next `n` bytes, or a failed read when fewer remain. */
  function ReadBytes(input: seq<byte>, n: nat): (r: Result<(seq<byte>, seq<byte>), ReadError>)
    ensures r.Ok? <==> n <= |input|
    ensures r.Ok? ==> |r.value.0| == n && r.value.0 + r.value.1 == input
  {
    if |input| < n then Err(ShortRead) else Ok((input[..n], input[n..]))
  }

  /** `BinarySerializer::serializeString`: the length as a `size_t`, then the raw bytes. */
  function SerializeString(str: seq<byte>): seq<byte>
    requires |str| < Pow256(SizeWidth)
  {
    EncodeLE(|str|, SizeWidth) + str
  }

  /** `BinarySerializer::deserializeString`: read the length, then that many bytes; the
      result carries the bytes not yet read. */
  function DeserializeString(input: seq<byte>): Result<(seq<byte>, seq<byte>), ReadError>
  {
    match ReadBytes(input, SizeWidth)
    case Err(e) => Err(e)
    case Ok((sizeBytes, afterSize)) => ReadBytes(afterSize, DecodeLE(sizeBytes))
  }

  /** A string written and then read back from the same stream comes out unchanged, and
      the stream is left just past it. */
  lemma StringRoundTrip(str: seq<byte>, rest: seq<byte>)
    requires |str| < Pow256(SizeWidth)
    ensures DeserializeString(SerializeString(str) + rest) == Ok((str, rest))
  {
    var input := SerializeString(str) + rest;
    var prefix := EncodeLE(|str|, SizeWidth);
    assert input == prefix + (str + rest);
    assert input[..SizeWidth] == prefix;
    assert input[SizeWidth..] == str + rest;
    DecodeEncode(|str|, SizeWidth);
    assert (str + rest)[..|str|] == str && (str + rest)[|str|..] == rest;
  }

  /** Conversely, whatever reads successfully as a string is that string's encoding
      followed by the unread bytes. */
  lemma StringReadIsEncoding(input: seq<byte>)
    requires DeserializeString(input).Ok?
    ensures |DeserializeString(input).value.0| < Pow256(SizeWidth)
    ensures input == SerializeString(DeserializeString(input).value.0) + DeserializeString(input).value.1
  {
    var sizeBytes := input[..SizeWidth];
    var str := DeserializeString(input).value.0;
    EncodeDecode(sizeBytes);
    assert |str| == DecodeLE(sizeBytes);
  }

  /** An `int` in two's complement: the 32-bit pattern of a value in range. */
  function EncodeInt(x: int): (r: seq<byte>)
    requires IsInt(x)
    ensures |r| == IntWidth
  {
    Pow256Int();
    EncodeLE(if x < 0 then x + 0x1_0000_0000 else x, IntWidth)
  }

  /** The `int` a 32-bit two's complement pattern stands for. */
  function DecodeInt(bs: seq<byte>): (r: int)
    requires |bs| == IntWidth
    ensures IsInt(r)
  {
    Pow256Int();
    var u := DecodeLE(bs);
    if u >= 0x8000_0000 then u - 0x1_0000_0000 else u
  }

  lemma Pow256Int()
    ensures Pow256(IntWidth) == 0x1_0000_0000
  {
  }

  lemma IntRoundTrip(x: int)
    requires IsInt(x)
    ensures DecodeInt(EncodeInt(x)) == x
  {
    Pow256Int();
    DecodeEncode(if x < 0 then x + 0x1_0000_0000 else x, IntWidth);
  }

  predicate IsInt(x: int)
  {
    -0x8000_0000 <= x < 0x8000_0000
  }

  /** The elements of a `vector<int>` one after another. */
  function EncodeInts(xs: seq<int>): (r: seq<byte>)
    requires forall i :: 0 <= i < |xs| ==> IsInt(xs[i])
    ensures |r| == IntWidth * |xs|
  {
    if |xs| == 0 then [] else EncodeInt(xs[0]) + EncodeInts(xs[1..])
  }

  /** The demo's read loop: `count` ints, each read with `deserialize`. */
  function ReadInts(input: seq<byte>, count: nat): Result<(seq<int>, seq<byte>), ReadError>
  {
    if count == 0 then Ok(([], input))
    else
      match ReadBytes(input, IntWidth)
      case Err(e) => Err(e)
      case Ok((bs, after)) =>
        match ReadInts(after, count - 1)
        case Err(e) => Err(e)
        case Ok((xs, rest)) => Ok(([DecodeInt(bs)] + xs, rest))
  }

  lemma {:induction false} IntsRoundTrip(xs: seq<int>, rest: seq<byte>)
    requires forall i :: 0 <= i < |xs| ==> IsInt(xs[i])
    ensures ReadInts(EncodeInts(xs) + rest, |xs|) == Ok((xs, rest))
    decreases |xs|
  {
    if |xs| == 0 {
      assert EncodeInts(xs) + rest == rest;
    } else {
      var first := EncodeInt(xs[0]);
      var input := EncodeInts(xs) + rest;
      assert input == first + (EncodeInts(xs[1..]) + rest);
      assert input[..IntWidth] == first && input[IntWidth..] == EncodeInts(xs[1..]) + rest;
      assert ReadBytes(input, IntWidth) == Ok((first, EncodeInts(xs[1..]) + rest));
      IntRoundTrip(xs[0]);
      IntsRoundTrip(xs[1..], rest);
      assert ReadInts(input, |xs|) == Ok(([DecodeInt(first)] + xs[1..], rest));
      assert xs == [xs[0]] + xs[1..];
    }
  }

  /** What `demonstrateBinarySerialization` writes: a name, an age, a salary and a score
      vector. The salary is a `double` whose eight bytes are copied as they are, so it is
      kept as those bytes. */
  datatype Record = Record(name: seq<byte>, age: int, salary: seq<byte>, scores: seq<int>)

  predicate Writable(r: Record)
  {
    && |r.name| < Pow256(SizeWidth)
    && IsInt(r.age)
    && |r.salary| == 8
    && |r.scores| < Pow256(SizeWidth)
    && forall i :: 0 <= i < |r.scores| ==> IsInt(r.scores[i])
  }

  /** A `vector<int>` as the demo writes it: the element count as a `size_t`, then the
      elements. */
  function SerializeVector(xs: seq<int>): seq<byte>
    requires |xs| < Pow256(SizeWidth)
    requires forall i :: 0 <= i < |xs| ==> IsInt(xs[i])
  {
    EncodeLE(|xs|, SizeWidth) + EncodeInts(xs)
  }

  /** The demo's vector read-back: the count, then `resize` and one read per element. */
  function DeserializeVector(input: seq<byte>): Result<(seq<int>, seq<byte>), ReadError>
  {
    match ReadBytes(input, SizeWidth)
    case Err(e) => Err(e)
    case Ok((countBytes, after)) => ReadInts(after, DecodeLE(countBytes))
  }

  lemma VectorRoundTrip(xs: seq<int>, rest: seq<byte>)
    requires |xs| < Pow256(SizeWidth)
    requires forall i :: 0 <= i < |xs| ==> IsInt(xs[i])
    ensures DeserializeVector(SerializeVector(xs) + rest) == Ok((xs, rest))
  {
    var countBytes := EncodeLE(|xs|, SizeWidth);
    var input := SerializeVector(xs) + rest;
    var after := EncodeInts(xs) + rest;
    assert input == countBytes + after;
    assert input[..SizeWidth] == countBytes && input[SizeWidth..] == after;
    DecodeEncode(|xs|, SizeWidth);
    assert DeserializeVector(input) == ReadInts(after, |xs|);
    IntsRoundTrip(xs, rest);
  }

  function SerializeRecord(r: Record): seq<byte>
    requires Writable(r)
  {
    SerializeString(r.name) + EncodeInt(r.age) + r.salary + SerializeVector(r.scores)
  }

  /** The demo's read-back sequence, in the order the fields were written. */
  function DeserializeRecord(input: seq<byte>): Result<(Record, seq<byte>), ReadError>
  {
    match DeserializeString(input)
    case Err(e) => Err(e)
    case Ok((name, s1)) =>
      match ReadBytes(s1, IntWidth)
      case Err(e) => Err(e)
      case Ok((ageBytes, s2)) =>
        match ReadBytes(s2, 8)
        case Err(e) => Err(e)
        case Ok((salary, s3)) =>
          match DeserializeVector(s3)
          case Err(e) => Err(e)
          case Ok((scores, rest)) => Ok((Record(name, DecodeInt(ageBytes), salary, scores), rest))
  }

  /** The record read back from the file equals the record written to it. */
  lemma RecordRoundTrip(r: Record, rest: seq<byte>)
    requires Writable(r)
    ensures DeserializeRecord(SerializeRecord(r) + rest) == Ok((r, rest))
  {
    var ageBytes := EncodeInt(r.age);
    var s3 := SerializeVector(r.scores) + rest;
    var s2 := r.salary + s3;
    var s1 := ageBytes + s2;
    assert SerializeRecord(r) + rest == SerializeString(r.name) + s1;
    StringRoundTrip(r.name, s1);
    assert ReadBytes(s1, IntWidth) == Ok((ageBytes, s2));
    IntRoundTrip(r.age);
    assert ReadBytes(s2, 8) == Ok((r.salary, s3));
    VectorRoundTrip(r.scores, rest);
  }
}
