/**
 Worked examples: the documented flattening examples, the corner cases of the
 list and key-collision rules, and the mapper's output fed to the writer.
 */
module Scenarios {
  import opened Wrappers
  import opened Seqs
  import opened Text
  import opened Assoc
  import opened Json
  import opened Flattener
  import opened CsvWriter

  // ---------------------------------------------------------------------------
  // Small steps of evaluation

  /** A scalar stored at a new path is appended. */
  lemma ScalarAtNewPath(prefix: string, v: JsonValue, acc: FlatRow)
    requires v.IsScalar() && prefix !in Keys(acc)
    ensures Flatten(prefix, v, acc) == acc + [(prefix, ScalarText(v))]
  {
    PutNewKeyAppends(acc, prefix, ScalarText(v));
  }

  /** Flattening `members` flattens the first member, then the rest. */
  lemma MembersStep(prefix: string, members: seq<Member>, acc: FlatRow)
    requires |members| > 0
    ensures FlattenMembers(prefix, members, acc)
         == FlattenMembers(prefix, members[1..], Flatten(ChildKey(prefix, members[0].key), members[0].value, acc))
  {
  }

  /** A one-member object. */
  lemma SingleMember(prefix: string, m: Member, acc: FlatRow)
    ensures Flatten(prefix, Object([m]), acc) == Flatten(ChildKey(prefix, m.key), m.value, acc)
  {
    MembersStep(prefix, [m], acc);
    assert [m][1..] == [];
  }

  /** A two-member object: the first member, then the second. */
  lemma TwoMembers(prefix: string, m1: Member, m2: Member, acc: FlatRow)
    ensures Flatten(prefix, Object([m1, m2]), acc)
         == Flatten(ChildKey(prefix, m2.key), m2.value, Flatten(ChildKey(prefix, m1.key), m1.value, acc))
  {
    var ms := [m1, m2];
    MembersStep(prefix, ms, acc);
    assert ms[1..] == [m2];
    SingleMember(prefix, m2, Flatten(ChildKey(prefix, m1.key), m1.value, acc));
    MembersStep(prefix, [m2], Flatten(ChildKey(prefix, m1.key), m1.value, acc));
    assert [m2][1..] == [];
  }

  // ---------------------------------------------------------------------------
  // Flattening examples

  lemma AddressStep()
    ensures Flatten("person.address", Object([Member("city", String("MX"))]), [("id", "1"), ("person.name", "Ana")])
         == [("id", "1"), ("person.name", "Ana"), ("person.address.city", "MX")]
  {
    var acc := [("id", "1"), ("person.name", "Ana")];
    assert ChildKey("person.address", "city") == "person.address.city";
    assert Keys(acc) == ["id", "person.name"];
    ScalarAtNewPath("person.address.city", String("MX"), acc);
    SingleMember("person.address", Member("city", String("MX")), acc);
  }

  lemma PersonStep()
    ensures Flatten("person", Object([
                Member("name", String("Ana")),
                Member("address", Object([Member("city", String("MX"))]))]), [("id", "1")])
         == [("id", "1"), ("person.name", "Ana"), ("person.address.city", "MX")]
  {
    var acc: FlatRow := [("id", "1")];
    var name, address := Member("name", String("Ana")), Member("address", Object([Member("city", String("MX"))]));
    assert ChildKey("person", "name") == "person.name";
    assert ChildKey("person", "address") == "person.address";
    assert Keys(acc) == ["id"];
    ScalarAtNewPath("person.name", String("Ana"), acc);
    var acc1 := Flatten("person.name", String("Ana"), acc);
    assert acc1 == [("id", "1"), ("person.name", "Ana")];
    AddressStep();
    TwoMembers("person", name, address, acc);
  }

  /** Nested objects give dotted keys, in document order. */
  lemma NestedObjectExample()
    ensures FlattenRow(Object([
              Member("id", String("1")),
              Member("person", Object([
                Member("name", String("Ana")),
                Member("address", Object([Member("city", String("MX"))]))]))]))
         == [("id", "1"), ("person.name", "Ana"), ("person.address.city", "MX")]
  {
    var person := Object([
                Member("name", String("Ana")),
                Member("address", Object([Member("city", String("MX"))]))]);
    var ms := [Member("id", String("1")), Member("person", person)];
    MembersStep("", ms, []);
    MembersStep("", ms[1..], [("id", "1")]);
    assert ms[1..][1..] == [];
    PersonStep();
  }

  /** A list of scalars becomes one `|`-joined entry at the list's own key. */
  lemma ScalarListExample()
    ensures FlattenRow(Object([Member("tags", Array([String("a"), String("b"), String("c")]))]))
         == [("tags", "a|b|c")]
  {
    var xs := [String("a"), String("b"), String("c")];
    SingleMember("", Member("tags", Array(xs)), []);
    var texts := ElementTexts(xs);
    assert texts == ["a", "b", "c"];
    assert texts[1..] == ["b", "c"] && texts[1..][1..] == ["c"];
    assert Join("|", texts) == "a|b|c";
  }

  /** An object inside a list is written inline as `k:v`. */
  lemma ObjectInListExample()
    ensures FlattenRow(Object([Member("items", Array([Object([Member("k", String("v"))])]))]))
         == [("items", "k:v")]
  {
    var inner := Object([Member("k", String("v"))]);
    SingleMember("", Member("items", Array([inner])), []);
    SingleMember("", Member("k", String("v")), []);
    assert Flatten("", inner, []) == [("k", "v")];
    assert Pairs([("k", "v")])[0] == "k" + [':'] + "v" == "k:v";
    assert ElementText(inner) == "k:v";
    assert ElementTexts([inner]) == ["k:v"];
  }

  /** A list inside a list is flattened at the empty path, so its inline text starts with `:`. */
  lemma ListInListExample()
    ensures FlattenRow(Object([Member("m", Array([Array([Number(1), Number(2)])]))]))
         == [("m", ":1|2")]
  {
    var inner := Array([Number(1), Number(2)]);
    SingleMember("", Member("m", Array([inner])), []);
    assert IntToString(1) == "1" && IntToString(2) == "2";
    var texts := ElementTexts([Number(1), Number(2)]);
    assert texts == ["1", "2"];
    assert Join("|", texts) == "1|2";
    assert Flatten("", inner, []) == [("", "1|2")];
    assert Pairs([("", "1|2")])[0] == "" + [':'] + "1|2" == ":1|2";
    assert ElementText(inner) == ":1|2";
    assert ElementTexts([inner]) == [":1|2"];
  }

  /** A `null` member leaves no key at all. */
  lemma NullMemberExample()
    ensures FlattenRow(Object([Member("id", String("1")), Member("nick", Null)])) == [("id", "1")]
  {
    var ms := [Member("id", String("1")), Member("nick", Null)];
    MembersStep("", ms, []);
    MembersStep("", ms[1..], [("id", "1")]);
    assert ms[1..][1..] == [];
  }

  /**
   The empty list, a list holding one `null` and a list holding one empty
   string all flatten to the same entry: the list rendering cannot tell them apart.
   */
  lemma EmptyListExample()
    ensures FlattenRow(Object([Member("t", Array([]))])) == [("t", "")]
    ensures FlattenRow(Object([Member("t", Array([Null]))])) == [("t", "")]
    ensures FlattenRow(Object([Member("t", Array([String("")]))])) == [("t", "")]
  {
    SingleMember("", Member("t", Array([])), []);
    SingleMember("", Member("t", Array([Null])), []);
    SingleMember("", Member("t", Array([String("")])), []);
    assert ElementTexts([Null]) == [""];
    assert ElementTexts([String("")]) == [""];
  }

  /** The nested `"a":{"b":"2"}` stores at `a.b`, which is already present. */
  lemma CollisionStoreStep()
    ensures Flatten("a", Object([Member("b", String("2"))]), [("a.b", "1"), ("c", "-7")])
         == [("a.b", "2"), ("c", "-7")]
  {
    var acc := [("a.b", "1"), ("c", "-7")];
    assert ChildKey("a", "b") == "a.b";
    SingleMember("a", Member("b", String("2")), acc);
    assert Put(acc, "a.b", "2") == [("a.b", "2"), ("c", "-7")];
  }

  lemma CollisionTailStep()
    ensures FlattenMembers("", [Member("c", Number(-7)), Member("a", Object([Member("b", String("2"))]))], [("a.b", "1")])
         == [("a.b", "2"), ("c", "-7")]
  {
    var ms := [Member("c", Number(-7)), Member("a", Object([Member("b", String("2"))]))];
    var acc := [("a.b", "1")];
    assert IntToString(-7) == "-7";
    assert Keys(acc) == ["a.b"];
    ScalarAtNewPath("c", Number(-7), acc);
    MembersStep("", ms, acc);
    MembersStep("", ms[1..], acc + [("c", "-7")]);
    assert ms[1..][1..] == [];
    CollisionStoreStep();
  }

  /**
   A top-level key containing a dot collides with a nested path: the later
   store wins, at the position of the earlier key.
   */
  lemma KeyCollisionExample()
    ensures FlattenRow(Object([
              Member("a.b", String("1")),
              Member("c", Number(-7)),
              Member("a", Object([Member("b", String("2"))]))]))
         == [("a.b", "2"), ("c", "-7")]
  {
    var ms := [Member("a.b", String("1")), Member("c", Number(-7)), Member("a", Object([Member("b", String("2"))]))];
    MembersStep("", ms, []);
    assert ms[1..] == [Member("c", Number(-7)), Member("a", Object([Member("b", String("2"))]))];
    CollisionTailStep();
  }

  // ---------------------------------------------------------------------------
  // From the mapper to the writer

  /** The mapper's flat row as the writer receives it: every value is a non-null string. */
  function AsWriterRow(flat: FlatRow): (row: Row)
    ensures |row| == |flat|
    ensures forall i :: 0 <= i < |flat| ==> row[i] == (flat[i].0, Some(flat[i].1))
  {
    if |flat| == 0 then [] else [(flat[0].0, Some(flat[0].1))] + AsWriterRow(flat[1..])
  }

  /** A column of a flattened row reads its stored text, or `""` when the row lacks the key. */
  lemma {:induction false} FieldOfFlatRow(flat: FlatRow, header: string)
    ensures Field(Some(AsWriterRow(flat)), header)
         == (if Get(flat, header).Some? then Get(flat, header).value else "")
  {
    if |flat| > 0 {
      FieldOfFlatRow(flat[1..], header);
      assert AsWriterRow(flat)[1..] == AsWriterRow(flat[1..]);
    }
  }

  /** A row with one numeric member flattens to one entry and reaches the writer as one string value. */
  lemma OneNumberRow(key: string, n: int)
    requires 0 <= n < 10
    ensures FlattenRow(Object([Member(key, Number(n))])) == [(key, [DigitChar(n)])]
    ensures AsWriterRow([(key, [DigitChar(n)])]) == [(key, Some([DigitChar(n)]))]
  {
    SingleMember("", Member(key, Number(n)), []);
  }

  /** The headers inferred from rows keyed `a` and `b`. */
  lemma TwoRowsHeaders()
    ensures Dedup(KeyStream([Some([("a", Some("1"))]), Some([("b", Some("2"))])])) == ["a", "b"]
  {
    var rows: seq<Option<Row>> := [Some([("a", Some("1"))]), Some([("b", Some("2"))])];
    var init := rows[..1];
    assert init == [rows[0]] && init[..0] == [];
    assert RowKeys(rows[0]) == ["a"] && RowKeys(rows[1]) == ["b"];
    assert KeyStream(init) == KeyStream(init[..0]) + RowKeys(init[0]) == ["a"];
    assert rows[..|rows| - 1] == init;
    assert ["a", "b"][1..] == ["b"];
  }

  /** The mapper's rows for `{"a":1}` and `{"b":2}`, as the writer receives them. */
  method MappedRows() returns (rows: seq<Option<Row>>)
    ensures rows == [Some([("a", Some("1"))]), Some([("b", Some("2"))])]
  {
    var flat := MapToFlatRows(Some([Object([Member("a", Number(1))]), Object([Member("b", Number(2))])]));
    OneNumberRow("a", 1);
    OneNumberRow("b", 2);
    rows := [Some(AsWriterRow(flat.value[0])), Some(AsWriterRow(flat.value[1]))];
  }

  /** Each of the two rows fills its own column and leaves the other one empty. */
  lemma MappedRowFields()
    ensures Field(Some([("a", Some("1"))]), "a") == "1" && Field(Some([("a", Some("1"))]), "b") == ""
    ensures Field(Some([("b", Some("2"))]), "a") == "" && Field(Some([("b", Some("2"))]), "b") == "2"
  {
  }

  /**
   Rows `{"a":1}` and `{"b":2}` without supplied headers: the headers are
   inferred as `a`, `b`, and each row leaves the other column empty.
   */
  method InferredHeadersExample() returns (r: Result<Table, Error>)
    ensures r == Success([["a", "b"], ["1", ""], ["", "2"]])
  {
    var rows := MappedRows();
    TwoRowsHeaders();
    MappedRowFields();
    r := WriteCsv(None, Some(rows));
    var t := r.value;
    assert |t| == 3 && t[0] == ["a", "b"];
    assert t[1] == ["1", ""];
    assert t[2] == ["", "2"];
    assert t == [["a", "b"], ["1", ""], ["", "2"]];
  }

  /**
   Supplied headers `id`, `name`, `age` are written verbatim as the first line,
   whatever order the rows keep their keys in.
   */
  method SuppliedHeadersExample() returns (r: Result<Table, Error>)
    ensures r == Success([["id", "name", "age"], ["1", "Ana", "30"], ["2", "Luis", "25"]])
  {
    var r1: Row := [("age", Some("30")), ("id", Some("1")), ("name", Some("Ana"))];
    var r2: Row := [("name", Some("Luis")), ("id", Some("2")), ("age", Some("25"))];
    r := WriteCsv(Some(["id", "name", "age"]), Some([Some(r1), Some(r2)]));
    var t := r.value;
    assert r1[1..] == [("id", Some("1")), ("name", Some("Ana"))] && r1[1..][1..] == [("name", Some("Ana"))];
    assert r2[1..] == [("id", Some("2")), ("age", Some("25"))] && r2[1..][1..] == [("age", Some("25"))];
    assert |t| == 3 && t[0] == ["id", "name", "age"];
    assert t[1] == ["1", "Ana", "30"];
    assert t[2] == ["2", "Luis", "25"];
    assert t == [["id", "name", "age"], ["1", "Ana", "30"], ["2", "Luis", "25"]];
  }
}
