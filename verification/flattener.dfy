/**
 The JSON-to-flat-row mapper. Each parsed row becomes one insertion-ordered
 flat map from dotted key paths to strings:
 - an object member `k` under the path `p` continues at `p.k` (just `k` at the top);
 - a scalar at path `p` is stored at `p` as its `toString()`;
 - a list at path `p` is stored at `p` as its elements' texts joined with `|`,
   where an object or list element is itself flattened from an empty path and
   written inline as `k:v,k:v`;
 - a `null` writes nothing.
 Stores use `LinkedHashMap.put`, so a later store to a path already present
 replaces the value in place.
 */
module Flattener {
  import opened Wrappers
  import opened Seqs
  import opened Text
  import opened Assoc
  import opened Json

  type FlatRow = AList<string>

  const KeySeparator: string := "."
  const ListSeparator: char := '|'
  const PairSeparator: char := ','
  const KeyValueSeparator: char := ':'
  const RowsNullMessage: string := "rows cannot be null"

  /** `toString()` of a scalar. */
  function ScalarText(v: JsonValue): string
    requires v.IsScalar()
  {
    match v
    case Bool(b) => if b then "true" else "false"
    case Number(n) => IntToString(n)
    case String(s) => s
  }

  /** The path of member `key` of the object found at `prefix`. */
  function ChildKey(prefix: string, key: string): string {
    if prefix == "" then key else prefix + KeySeparator + key
  }

  /**
   `key` lies in the subtree of `prefix`: it is `prefix` itself or continues it
   after a dot. Every key lies under the empty (top-level) prefix.
   */
  predicate UnderPath(prefix: string, key: string) {
    prefix == "" || key == prefix || prefix + KeySeparator <= key
  }

  /** A member's subtree lies inside its parent's subtree. */
  lemma ChildUnderParent(prefix: string, key: string)
    ensures forall k :: UnderPath(ChildKey(prefix, key), k) ==> UnderPath(prefix, k)
  {
  }

  /**
   `flattenMap(prefix, v, acc)`: the accumulator after flattening `v` at path
   `prefix`. Keys outside the subtree of `prefix` read as before; a scalar or a
   list stores exactly the one key `prefix`, holding its text, and every other
   key reads as before; `null` leaves the accumulator as it was.
   */
  function Flatten(prefix: string, v: JsonValue, acc: FlatRow): (r: FlatRow)
    decreases v, 0
    ensures forall k :: !UnderPath(prefix, k) ==> Get(r, k) == Get(acc, k)
    ensures v.Null? ==> r == acc
    ensures v.IsScalar() || v.Array? ==> forall k :: k != prefix ==> Get(r, k) == Get(acc, k)
    ensures v.IsScalar() ==>
              Get(r, prefix) == Some(ScalarText(v)) && Keys(r) == AppendNew(Keys(acc), prefix)
    ensures v.Array? ==>
              Get(r, prefix) == Some(Join([ListSeparator], ElementTexts(v.items)))
              && Keys(r) == AppendNew(Keys(acc), prefix)
  {
    match v
    case Null => acc
    case Object(members) => FlattenMembers(prefix, members, acc)
    case Array(items) => Put(acc, prefix, Join([ListSeparator], ElementTexts(items)))
    case _ => Put(acc, prefix, ScalarText(v))
  }

  /** The loop over an object's members, in order, each at its child path. */
  function FlattenMembers(prefix: string, members: seq<Member>, acc: FlatRow): (r: FlatRow)
    decreases members
    ensures forall k :: !UnderPath(prefix, k) ==> Get(r, k) == Get(acc, k)
  {
    if |members| == 0 then acc
    else
      var m := members[0];
      ChildUnderParent(prefix, m.key);
      FlattenMembers(prefix, members[1..], Flatten(ChildKey(prefix, m.key), m.value, acc))
  }

  /** The text one list element contributes to the joined list. */
  function ElementText(item: JsonValue): string
    decreases item, 1
  {
    match item
    case Object(_) => Inline(Flatten("", item, []))
    case Array(_) => Inline(Flatten("", item, []))
    case Null => ""
    case _ => ScalarText(item)
  }

  /** The texts of the elements of a list, one per element, in order. */
  function ElementTexts(items: seq<JsonValue>): (texts: seq<string>)
    decreases items
    ensures |texts| == |items|
    ensures forall i :: 0 <= i < |items| ==> texts[i] == ElementText(items[i])
  {
    if |items| == 0 then [] else [ElementText(items[0])] + ElementTexts(items[1..])
  }

  /** The `key:value` texts of a flat map, in its order. */
  function Pairs(m: FlatRow): seq<string> {
    seq(|m|, i requires 0 <= i < |m| => m[i].0 + [KeyValueSeparator] + m[i].1)
  }

  /** `mapToInlineString`: the pairs of a flat map joined with `,`. */
  function Inline(m: FlatRow): string {
    Join([PairSeparator], Pairs(m))
  }

  /** A row the mapper accepts: a JSON object, or `null`. */
  predicate IsRow(v: JsonValue) {
    v.Object? || v.Null?
  }

  /** One parsed row flattened into a fresh map. */
  function FlattenRow(row: JsonValue): FlatRow {
    Flatten("", row, [])
  }

  /**
   `mapToFlatRows`: a null list is refused; otherwise one flat row per input
   row, in input order. The rows are maps or `null`, as the list's element type
   guarantees.
   */
  method MapToFlatRows(rows: Option<seq<JsonValue>>) returns (r: Result<seq<FlatRow>, Error>)
    requires rows.Some? ==> forall i :: 0 <= i < |rows.value| ==> IsRow(rows.value[i])
    ensures rows.None? <==> r.Failure?
    ensures rows.None? ==> r.error == IllegalArgument(RowsNullMessage)
    ensures rows.Some? ==>
              && |r.value| == |rows.value|
              && forall i :: 0 <= i < |rows.value| ==> r.value[i] == FlattenRow(rows.value[i])
  {
    if rows.None? {
      return Failure(IllegalArgument(RowsNullMessage));
    }
    var input := rows.value;
    var result: seq<FlatRow> := [];
    var i := 0;
    while i < |input|
      invariant 0 <= i <= |input|
      invariant |result| == i
      invariant forall j :: 0 <= j < i ==> result[j] == FlattenRow(input[j])
    {
      var flat := Flatten("", input[i], []);
      result := result + [flat];
      i := i + 1;
    }
    return Success(result);
  }

  // ---------------------------------------------------------------------------
  // Which keys a flattening writes, and in which order

  /**
   The paths at which `v` stores a value, in depth-first member order. A path
   may repeat when two members flatten to the same dotted key.
   */
  function LeafPaths(prefix: string, v: JsonValue): seq<string>
    decreases v
  {
    match v
    case Null => []
    case Object(members) => MemberLeafPaths(prefix, members)
    case _ => [prefix]
  }

  function MemberLeafPaths(prefix: string, members: seq<Member>): seq<string>
    decreases members
  {
    if |members| == 0 then []
    else
      LeafPaths(ChildKey(prefix, members[0].key), members[0].value)
      + MemberLeafPaths(prefix, members[1..])
  }

  /**
   The keys of the result are the keys of the accumulator followed by the
   leaf paths of `v` that are new, in first-seen order.
   */
  lemma {:induction false} FlattenKeyOrder(prefix: string, v: JsonValue, acc: FlatRow)
    ensures Keys(Flatten(prefix, v, acc)) == AddAll(Keys(acc), LeafPaths(prefix, v))
    decreases v
  {
    match v
    case Null =>
    case Object(members) => MemberKeyOrder(prefix, members, acc);
    case _ =>
      assert AddAll(Keys(acc), [prefix]) == AppendNew(Keys(acc), prefix);
  }

  lemma {:induction false} MemberKeyOrder(prefix: string, members: seq<Member>, acc: FlatRow)
    ensures Keys(FlattenMembers(prefix, members, acc))
         == AddAll(Keys(acc), MemberLeafPaths(prefix, members))
    decreases members
  {
    if |members| > 0 {
      var m := members[0];
      var child := ChildKey(prefix, m.key);
      var acc' := Flatten(child, m.value, acc);
      FlattenKeyOrder(child, m.value, acc);
      MemberKeyOrder(prefix, members[1..], acc');
      AddAllConcat(Keys(acc), LeafPaths(child, m.value), MemberLeafPaths(prefix, members[1..]));
    }
  }

  /** Under a prefix, every leaf path lies in that prefix's subtree. */
  lemma {:induction false} LeafPathsUnderPrefix(prefix: string, v: JsonValue)
    ensures forall k :: k in LeafPaths(prefix, v) ==> UnderPath(prefix, k)
    decreases v
  {
    match v
    case Null =>
    case Object(members) => MemberLeafPathsUnderPrefix(prefix, members);
    case _ =>
  }

  lemma {:induction false} MemberLeafPathsUnderPrefix(prefix: string, members: seq<Member>)
    ensures forall k :: k in MemberLeafPaths(prefix, members) ==> UnderPath(prefix, k)
    decreases members
  {
    if |members| > 0 {
      var m := members[0];
      LeafPathsUnderPrefix(ChildKey(prefix, m.key), m.value);
      ChildUnderParent(prefix, m.key);
      MemberLeafPathsUnderPrefix(prefix, members[1..]);
    }
  }

  /**
   Flattening at a non-empty prefix `p` keeps the accumulator's keys first and
   in place, and every key it adds is `p` itself or starts with `p.`.
   */
  lemma FlattenAddsOnlyUnderPrefix(prefix: string, v: JsonValue, acc: FlatRow)
    requires prefix != ""
    ensures Keys(acc) <= Keys(Flatten(prefix, v, acc))
    ensures forall k :: k in Keys(Flatten(prefix, v, acc)) && k !in Keys(acc) ==>
              k == prefix || prefix + KeySeparator <= k
  {
    FlattenKeyOrder(prefix, v, acc);
    AddAllFacts(Keys(acc), LeafPaths(prefix, v));
    LeafPathsUnderPrefix(prefix, v);
  }

  /**
   A flattened row holds each of the row's leaf paths exactly once, nothing
   else, in the order the depth-first walk first reaches them.
   */
  lemma FlattenRowKeys(row: JsonValue)
    ensures Keys(FlattenRow(row)) == Dedup(LeafPaths("", row))
    ensures DistinctKeys(FlattenRow(row))
    ensures forall k :: k in Keys(FlattenRow(row)) <==> k in LeafPaths("", row)
    ensures FirstSeenOrder(LeafPaths("", row), Keys(FlattenRow(row)))
  {
    var paths := LeafPaths("", row);
    FlattenKeyOrder("", row, []);
    var empty: FlatRow := [];
    assert Keys(empty) == [];
    AddAllFacts([], paths);
    AddAllFirstSeen([], paths);
    assert [] + paths == paths;
  }

  // ---------------------------------------------------------------------------
  // Nulls, lists and inline objects

  /** The members of an object whose value is not `null`. */
  function NonNullMembers(members: seq<Member>): (r: seq<Member>)
    ensures forall m :: m in r <==> m in members && !m.value.Null?
  {
    if |members| == 0 then []
    else if members[0].value.Null? then NonNullMembers(members[1..])
    else [members[0]] + NonNullMembers(members[1..])
  }

  /** `null` members add no entry: dropping them changes nothing. */
  lemma {:induction false} NullMembersIgnored(prefix: string, members: seq<Member>, acc: FlatRow)
    ensures FlattenMembers(prefix, NonNullMembers(members), acc) == FlattenMembers(prefix, members, acc)
    decreases members
  {
    if |members| > 0 {
      var m := members[0];
      var acc' := Flatten(ChildKey(prefix, m.key), m.value, acc);
      NullMembersIgnored(prefix, members[1..], acc');
      if !m.value.Null? {
        var kept := [m] + NonNullMembers(members[1..]);
        assert kept[0] == m && kept[1..] == NonNullMembers(members[1..]);
      }
    }
  }

  /**
   A non-empty list whose element texts contain no `|` can be read back from
   its one entry: splitting at `|` gives the element texts in order.
   */
  lemma ListEntrySplitsIntoElements(prefix: string, items: seq<JsonValue>, acc: FlatRow)
    requires |items| > 0
    requires forall i :: 0 <= i < |items| ==> ListSeparator !in ElementText(items[i])
    ensures Get(Flatten(prefix, Array(items), acc), prefix).Some?
    ensures Split(Get(Flatten(prefix, Array(items), acc), prefix).value, ListSeparator)
         == ElementTexts(items)
  {
    SplitJoin(ElementTexts(items), ListSeparator);
  }

  /**
   The inline text of a non-empty flat map whose keys and values contain no
   `,` or `:` determines the map: its `,`-pieces are the entries, in order, and
   each splits at `:` into the key and the value.
   */
  lemma InlineSplitsIntoPairs(m: FlatRow)
    requires |m| > 0
    requires forall i :: 0 <= i < |m| ==>
               && PairSeparator !in m[i].0 && PairSeparator !in m[i].1
               && KeyValueSeparator !in m[i].0 && KeyValueSeparator !in m[i].1
    ensures |Split(Inline(m), PairSeparator)| == |m|
    ensures forall i :: 0 <= i < |m| ==>
              Split(Split(Inline(m), PairSeparator)[i], KeyValueSeparator) == [m[i].0, m[i].1]
  {
    var pairs := Pairs(m);
    forall i | 0 <= i < |m|
      ensures PairSeparator !in pairs[i]
      ensures Split(pairs[i], KeyValueSeparator) == [m[i].0, m[i].1]
    {
      assert pairs[i] == m[i].0 + [KeyValueSeparator] + m[i].1;
      SplitAfterSeparator(m[i].0, KeyValueSeparator, m[i].1);
      SplitNoSeparator(m[i].1, KeyValueSeparator);
    }
    SplitJoin(pairs, PairSeparator);
  }

  // ---------------------------------------------------------------------------
  // Flattening an already-flat row

  /** A flat row written back as a JSON object whose values are all strings. */
  function Embed(row: FlatRow): (members: seq<Member>)
    ensures |members| == |row|
    ensures forall i :: 0 <= i < |row| ==> members[i] == Member(row[i].0, String(row[i].1))
  {
    if |row| == 0 then [] else [Member(row[0].0, String(row[0].1))] + Embed(row[1..])
  }

  /** The first key of a row without repeated keys is fresh for the accumulator in front of it. */
  lemma FirstKeyFresh(acc: FlatRow, row: FlatRow)
    requires |row| > 0 && DistinctKeys(acc + row)
    ensures row[0].0 !in Keys(acc)
    ensures (acc + [row[0]]) + row[1..] == acc + row
  {
    var ks := Keys(acc + row);
    assert ks[|acc|] == row[0].0;
    forall i | 0 <= i < |acc|
      ensures Keys(acc)[i] != row[0].0
    {
      assert Keys(acc)[i] == ks[i];
    }
    assert (acc + [row[0]]) + row[1..] == acc + ([row[0]] + row[1..]);
    assert [row[0]] + row[1..] == row;
  }

  lemma {:induction false} EmbedFlattensToItself(acc: FlatRow, row: FlatRow)
    requires DistinctKeys(acc + row)
    ensures FlattenMembers("", Embed(row), acc) == acc + row
    decreases |row|
  {
    if |row| > 0 {
      var (k, s) := row[0];
      var ms := Embed(row);
      FirstKeyFresh(acc, row);
      PutNewKeyAppends(acc, k, s);
      assert Flatten(ChildKey("", ms[0].key), ms[0].value, acc) == acc + [(k, s)];
      assert ms[1..] == Embed(row[1..]);
      EmbedFlattensToItself(acc + [(k, s)], row[1..]);
    }
  }

  /**
   Flattening is the identity on rows that are already flat: a row whose
   values are all strings comes back with the same keys, values and order.
   */
  lemma FlatRowIsFixedPoint(row: FlatRow)
    requires DistinctKeys(row)
    ensures FlattenRow(Object(Embed(row))) == row
  {
    assert [] + row == row;
    EmbedFlattensToItself([], row);
  }
}
