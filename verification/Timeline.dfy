/** What a timeline event keeps of its metadata (`_json_safe` and `normalize_metadata`,
    apps/api/core/timeline.py). Values are objects on a heap that may contain themselves. */
module Timeline {
  import opened Text

  const MAX_METADATA_BYTES := 8_192
  const MAX_METADATA_DEPTH := 4

  type Ref = nat

  /** `None`, a boolean, a number or a string. */
  datatype Scalar = Null | Flag(on: bool) | Number(digits: string) | Str(text: string)

  /** An entry of a mapping, with the key as `str` prints it. */
  datatype Entry = Entry(key: string, ref: Ref)

  datatype Object =
    | Plain(value: Scalar)
    | MixedMember(value: Scalar)  // of an enumeration that is also a string or number type
    | Member(of: Ref)             // of any other enumeration, with the value it stands for
    | Identifier(text: string)
    | Moment(isoformat: string)
    | Mapping(entries: seq<Entry>)
    | Items(elements: seq<Ref>)
    | Unrecognised

  datatype Heap = Heap(at: Ref -> Object, str: Ref -> string)

  /** A member of an enumeration is made after the value it stands for. */
  ghost predicate Ordered(heap: Heap) {
    forall r :: heap.at(r).Member? ==> heap.at(r).of < r
  }

  /** A value as the column holds it. */
  datatype Json = Leaf(value: Scalar) | MemberLeaf(value: Scalar) | Dict(fields: seq<Field>) | List(items: seq<Json>)

  datatype Field = Field(key: string, value: Json)

  // ----- dictionaries -----

  /** Assigning one key: a key already there keeps its place and takes the new value. */
  function Put(dict: seq<Field>, field: Field): seq<Field> {
    if dict == [] then [field]
    else if dict[0].key == field.key then [field] + dict[1..]
    else [dict[0]] + Put(dict[1..], field)
  }

  /** A dictionary comprehension. */
  function Gathered(fields: seq<Field>): seq<Field> {
    if fields == [] then [] else Put(Gathered(fields[..|fields| - 1]), fields[|fields| - 1])
  }

  predicate DistinctKeys(fields: seq<Field>) {
    forall i, j | 0 <= i < j < |fields| :: fields[i].key != fields[j].key
  }

  lemma {:induction false} PutMembers(dict: seq<Field>, field: Field)
    requires DistinctKeys(dict)
    ensures forall f :: f in Put(dict, field) <==> f == field || (f in dict && f.key != field.key)
    ensures DistinctKeys(Put(dict, field)) && |Put(dict, field)| <= |dict| + 1
  {
    if dict != [] {
      assert forall f :: f in dict <==> f == dict[0] || f in dict[1..];
      if dict[0].key != field.key {
        PutMembers(dict[1..], field);
        var rest := Put(dict[1..], field);
        forall k | 0 <= k < |rest| ensures rest[k].key != dict[0].key { assert rest[k] in rest; }
      }
    }
  }

  lemma {:induction false} PutNew(dict: seq<Field>, field: Field)
    requires forall i | 0 <= i < |dict| :: dict[i].key != field.key
    ensures Put(dict, field) == dict + [field]
  {
    if dict != [] { PutNew(dict[1..], field); }
  }

  /** `f` is what the last assignment to its key left. */
  ghost predicate LastUnderKey(fields: seq<Field>, f: Field) {
    exists i :: IsLast(fields, i, f)
  }

  ghost predicate IsLast(fields: seq<Field>, i: int, f: Field) {
    0 <= i < |fields| && fields[i] == f && forall j | i < j < |fields| :: fields[j].key != f.key
  }

  lemma LastStep(fields: seq<Field>, n: nat, f: Field)
    requires |fields| == n + 1
    ensures LastUnderKey(fields, f) <==> f == fields[n] || (LastUnderKey(fields[..n], f) && f.key != fields[n].key)
  {
    if LastUnderKey(fields, f) {
      var i :| IsLast(fields, i, f);
      if i < n { assert IsLast(fields[..n], i, f); }
    }
    if f == fields[n] {
      assert IsLast(fields, n, f);
    } else if LastUnderKey(fields[..n], f) && f.key != fields[n].key {
      var i :| IsLast(fields[..n], i, f);
      assert IsLast(fields, i, f);
    }
  }

  /** A comprehension holds exactly the last value under each key. */
  lemma {:induction false} GatheredExactly(fields: seq<Field>)
    ensures DistinctKeys(Gathered(fields)) && |Gathered(fields)| <= |fields|
    ensures forall f :: f in Gathered(fields) <==> LastUnderKey(fields, f)
  {
    if fields != [] {
      var n := |fields| - 1;
      GatheredExactly(fields[..n]);
      PutMembers(Gathered(fields[..n]), fields[n]);
      forall f ensures f in Gathered(fields) <==> LastUnderKey(fields, f) {
        LastStep(fields, n, f);
      }
    }
  }

  lemma {:induction false} DistinctGathered(fields: seq<Field>)
    requires DistinctKeys(fields)
    ensures Gathered(fields) == fields
  {
    if fields != [] {
      var n := |fields| - 1;
      DistinctGathered(fields[..n]);
      PutNew(fields[..n], fields[n]);
      assert fields[..n] + [fields[n]] == fields;
    }
  }

  // ----- coercion -----

  /** `_json_safe`. */
  function JsonSafe(heap: Heap, r: Ref, depth: nat): Json
    requires Ordered(heap)
    decreases if depth < MAX_METADATA_DEPTH then MAX_METADATA_DEPTH - depth else 0, r
  {
    match heap.at(r)
    case Plain(value) => Leaf(value)
    case MixedMember(value) => MemberLeaf(value)
    case Member(of) => JsonSafe(heap, of, depth)
    case Identifier(text) => Leaf(Str(text))
    case Moment(isoformat) => Leaf(Str(isoformat))
    case Mapping(entries) =>
      if depth >= MAX_METADATA_DEPTH then Leaf(Str(heap.str(r)))
      else
        Dict(Gathered(seq(|entries|, i requires 0 <= i < |entries| =>
          Field(entries[i].key, JsonSafe(heap, entries[i].ref, depth + 1)))))
    case Items(elements) =>
      if depth >= MAX_METADATA_DEPTH then Leaf(Str(heap.str(r)))
      else List(seq(|elements|, i requires 0 <= i < |elements| => JsonSafe(heap, elements[i], depth + 1)))
    case Unrecognised => Leaf(Str(heap.str(r)))
  }

  function Coerced(heap: Heap, entries: seq<Entry>, depth: nat): (fields: seq<Field>)
    requires Ordered(heap)
    ensures |fields| == |entries|
    ensures forall i | 0 <= i < |entries| ::
              fields[i] == Field(entries[i].key, JsonSafe(heap, entries[i].ref, depth))
  {
    seq(|entries|, i requires 0 <= i < |entries| => Field(entries[i].key, JsonSafe(heap, entries[i].ref, depth)))
  }

  lemma DictOfMapping(heap: Heap, r: Ref, depth: nat)
    requires Ordered(heap) && heap.at(r).Mapping? && depth < MAX_METADATA_DEPTH
    ensures JsonSafe(heap, r, depth) == Dict(Gathered(Coerced(heap, heap.at(r).entries, depth + 1)))
  {
    var entries := heap.at(r).entries;
    assert seq(|entries|, i requires 0 <= i < |entries| =>
             Field(entries[i].key, JsonSafe(heap, entries[i].ref, depth + 1)))
        == Coerced(heap, entries, depth + 1);
  }

  /** A tree of at most `levels` dictionaries and lists inside each other, each key given once. */
  ghost predicate Fits(json: Json, levels: int) {
    match json
    case Leaf(_) => true
    case MemberLeaf(_) => true
    case Dict(fields) =>
      levels > 0 && DistinctKeys(fields) && forall i | 0 <= i < |fields| :: Fits(fields[i].value, levels - 1)
    case List(items) => levels > 0 && forall i | 0 <= i < |items| :: Fits(items[i], levels - 1)
  }

  /** Whatever the object graph, what is kept is a tree no deeper than the bound. */
  lemma {:induction false} CoercedFits(heap: Heap, r: Ref, depth: nat)
    requires Ordered(heap)
    ensures Fits(JsonSafe(heap, r, depth), MAX_METADATA_DEPTH - depth)
    decreases if depth < MAX_METADATA_DEPTH then MAX_METADATA_DEPTH - depth else 0, r
  {
    match heap.at(r)
    case Member(of) => CoercedFits(heap, of, depth);
    case Mapping(entries) =>
      if depth < MAX_METADATA_DEPTH {
        forall i | 0 <= i < |entries|
          ensures Fits(JsonSafe(heap, entries[i].ref, depth + 1), MAX_METADATA_DEPTH - depth - 1)
        {
          CoercedFits(heap, entries[i].ref, depth + 1);
        }
        DictFits(heap, r, depth);
      }
    case Items(elements) =>
      if depth < MAX_METADATA_DEPTH {
        forall i | 0 <= i < |elements|
          ensures Fits(JsonSafe(heap, elements[i], depth + 1), MAX_METADATA_DEPTH - depth - 1)
        {
          CoercedFits(heap, elements[i], depth + 1);
        }
      }
    case _ =>
  }

  lemma DictFits(heap: Heap, r: Ref, depth: nat)
    requires Ordered(heap) && heap.at(r).Mapping? && depth < MAX_METADATA_DEPTH
    requires forall i | 0 <= i < |heap.at(r).entries| ::
               Fits(JsonSafe(heap, heap.at(r).entries[i].ref, depth + 1), MAX_METADATA_DEPTH - depth - 1)
    ensures Fits(JsonSafe(heap, r, depth), MAX_METADATA_DEPTH - depth)
  {
    DictOfMapping(heap, r, depth);
    GatheredFits(Coerced(heap, heap.at(r).entries, depth + 1), MAX_METADATA_DEPTH - depth - 1);
  }

  lemma GatheredFits(fields: seq<Field>, levels: int)
    requires forall i | 0 <= i < |fields| :: Fits(fields[i].value, levels)
    ensures forall i | 0 <= i < |Gathered(fields)| :: Fits(Gathered(fields)[i].value, levels)
    ensures DistinctKeys(Gathered(fields))
  {
    GatheredExactly(fields);
    forall i | 0 <= i < |Gathered(fields)| ensures Fits(Gathered(fields)[i].value, levels) {
      assert Gathered(fields)[i] in Gathered(fields);
      var k :| IsLast(fields, k, Gathered(fields)[i]);
    }
  }

  /** The object is the given tree, leaf for leaf and key for key. */
  ghost predicate Holds(heap: Heap, r: Ref, json: Json)
    decreases json
  {
    match json
    case Leaf(value) => heap.at(r) == Plain(value)
    case MemberLeaf(value) => heap.at(r) == MixedMember(value)
    case Dict(fields) =>
      && DistinctKeys(fields)
      && heap.at(r).Mapping? && |heap.at(r).entries| == |fields|
      && forall i | 0 <= i < |fields| ::
           heap.at(r).entries[i].key == fields[i].key && Holds(heap, heap.at(r).entries[i].ref, fields[i].value)
    case List(items) =>
      && heap.at(r).Items? && |heap.at(r).elements| == |items|
      && forall i | 0 <= i < |items| :: Holds(heap, heap.at(r).elements[i], items[i])
  }

  /** At one place in the tree the coercion keeps what is given exactly if it fits. */
  ghost predicate KeptIffFits(heap: Heap, r: Ref, json: Json, depth: nat)
    requires Ordered(heap)
  {
    JsonSafe(heap, r, depth) == json <==> Fits(json, MAX_METADATA_DEPTH - depth)
  }

  lemma DictKept(heap: Heap, r: Ref, fields: seq<Field>, depth: nat)
    requires Ordered(heap) && Holds(heap, r, Dict(fields)) && depth < MAX_METADATA_DEPTH
    requires forall i | 0 <= i < |fields| :: KeptIffFits(heap, heap.at(r).entries[i].ref, fields[i].value, depth + 1)
    ensures KeptIffFits(heap, r, Dict(fields), depth)
  {
    var coerced := Coerced(heap, heap.at(r).entries, depth + 1);
    DictOfMapping(heap, r, depth);
    DistinctGathered(coerced);
    forall i | 0 <= i < |fields|
      ensures coerced[i] == fields[i] <==> Fits(fields[i].value, MAX_METADATA_DEPTH - depth - 1)
    {
      assert KeptIffFits(heap, heap.at(r).entries[i].ref, fields[i].value, depth + 1);
    }
    assert (forall i | 0 <= i < |fields| :: coerced[i] == fields[i]) <==> coerced == fields;
  }

  lemma ListKept(heap: Heap, r: Ref, items: seq<Json>, depth: nat)
    requires Ordered(heap) && Holds(heap, r, List(items)) && depth < MAX_METADATA_DEPTH
    requires forall i | 0 <= i < |items| :: KeptIffFits(heap, heap.at(r).elements[i], items[i], depth + 1)
    ensures KeptIffFits(heap, r, List(items), depth)
  {
    var coerced := JsonSafe(heap, r, depth).items;
    forall i | 0 <= i < |items| ensures coerced[i] == items[i] <==> Fits(items[i], MAX_METADATA_DEPTH - depth - 1) {
      assert KeptIffFits(heap, heap.at(r).elements[i], items[i], depth + 1);
    }
    assert (forall i | 0 <= i < |items| :: coerced[i] == items[i]) <==> coerced == items;
  }

  /** A tree of plain values is kept as it is exactly when it is no deeper than the bound. */
  lemma {:induction false} KeptAsGivenExactly(heap: Heap, r: Ref, json: Json, depth: nat)
    requires Ordered(heap) && Holds(heap, r, json)
    ensures JsonSafe(heap, r, depth) == json <==> Fits(json, MAX_METADATA_DEPTH - depth)
    decreases json
  {
    if depth < MAX_METADATA_DEPTH {
      match json
      case Dict(fields) =>
        forall i | 0 <= i < |fields| ensures KeptIffFits(heap, heap.at(r).entries[i].ref, fields[i].value, depth + 1) {
          KeptAsGivenExactly(heap, heap.at(r).entries[i].ref, fields[i].value, depth + 1);
        }
        DictKept(heap, r, fields, depth);
      case List(items) =>
        forall i | 0 <= i < |items| ensures KeptIffFits(heap, heap.at(r).elements[i], items[i], depth + 1) {
          KeptAsGivenExactly(heap, heap.at(r).elements[i], items[i], depth + 1);
        }
        ListKept(heap, r, items, depth);
      case _ =>
    }
  }

  /** What has been coerced once is left alone. */
  lemma CoercionIdempotent(heap: Heap, r: Ref, depth: nat, again: Heap, s: Ref)
    requires Ordered(heap) && Ordered(again) && Holds(again, s, JsonSafe(heap, r, depth))
    ensures JsonSafe(again, s, depth) == JsonSafe(heap, r, depth)
  {
    CoercedFits(heap, r, depth);
    KeptAsGivenExactly(again, s, JsonSafe(heap, r, depth), depth);
  }

  // ----- enumerations -----

  /** The first object behind members of plain enumerations. */
  function Behind(heap: Heap, r: Ref): Ref
    requires Ordered(heap)
    decreases r
  {
    if heap.at(r).Member? then Behind(heap, heap.at(r).of) else r
  }

  /** A member is kept for its value, at every depth, except one that is a string or number itself:
      the first test takes it, although it is meant to be replaced too. */
  lemma {:induction false} MembersReplaced(heap: Heap, r: Ref, depth: nat)
    requires Ordered(heap)
    ensures JsonSafe(heap, r, depth) == JsonSafe(heap, Behind(heap, r), depth)
    ensures JsonSafe(heap, r, depth).MemberLeaf? <==> heap.at(Behind(heap, r)).MixedMember?
    ensures JsonSafe(heap, r, depth) == Leaf(Null) <==> heap.at(Behind(heap, r)) == Plain(Null)
    decreases r
  {
    if heap.at(r).Member? { MembersReplaced(heap, heap.at(r).of, depth); }
  }

  // ----- metadata -----

  /** The entries whose value is not `None`. */
  function Recorded(heap: Heap, entries: seq<Entry>): seq<Entry> {
    if entries == [] then []
    else
      var n := |entries| - 1;
      var before := Recorded(heap, entries[..n]);
      if heap.at(entries[n].ref) == Plain(Null) then before else before + [entries[n]]
  }

  function Metadata(heap: Heap, entries: seq<Entry>): seq<Field>
    requires Ordered(heap)
  {
    Gathered(Coerced(heap, Recorded(heap, entries), 1))
  }

  /** `normalize_metadata`; `encoded` gives the length of the serialised object in bytes, and nothing
      stands for `InvalidTimelineMetadataError`. */
  function NormalizeMetadata(encoded: seq<Field> -> nat, heap: Heap, value: Option<seq<Entry>>): Option<seq<Field>>
    requires Ordered(heap)
  {
    if value.None? || value.value == [] then Some([])
    else
      var normalized := Metadata(heap, value.value);
      if encoded(normalized) > MAX_METADATA_BYTES then None else Some(normalized)
  }

  /** Metadata is refused exactly if its fields take more than 8192 bytes; otherwise they are stored. */
  lemma RefusedExactly(encoded: seq<Field> -> nat, heap: Heap, value: Option<seq<Entry>>)
    requires Ordered(heap)
    ensures NormalizeMetadata(encoded, heap, value) == None
       <==> value.Some? && value.value != [] && encoded(Metadata(heap, value.value)) > 8192
    ensures NormalizeMetadata(encoded, heap, value).Some? ==>
              NormalizeMetadata(encoded, heap, value).value
              == if value.None? then [] else Metadata(heap, value.value)
  {
    if value.Some? { NothingFromNothing(heap, value.value); }
  }

  /** Identifiers and times are kept as their text, what is not recognised as what `str` makes of it,
      and so is everything with parts from the fourth level on. */
  lemma RenderedExactly(heap: Heap, r: Ref, depth: nat)
    requires Ordered(heap)
    ensures heap.at(r).Plain? ==> JsonSafe(heap, r, depth) == Leaf(heap.at(r).value)
    ensures heap.at(r).Identifier? ==> JsonSafe(heap, r, depth) == Leaf(Str(heap.at(r).text))
    ensures heap.at(r).Moment? ==> JsonSafe(heap, r, depth) == Leaf(Str(heap.at(r).isoformat))
    ensures heap.at(r).Unrecognised? ==> JsonSafe(heap, r, depth) == Leaf(Str(heap.str(r)))
    ensures (heap.at(r).Mapping? || heap.at(r).Items?) && depth >= 4 ==>
              JsonSafe(heap, r, depth) == Leaf(Str(heap.str(r)))
  {
  }

  lemma {:induction false} RecordedExactly(heap: Heap, entries: seq<Entry>)
    ensures |Recorded(heap, entries)| <= |entries|
    ensures (forall i | 0 <= i < |entries| :: heap.at(entries[i].ref) != Plain(Null))
       <==> Recorded(heap, entries) == entries
    ensures (exists i | 0 <= i < |entries| :: heap.at(entries[i].ref) == Plain(Null))
        ==> |Recorded(heap, entries)| < |entries|
    ensures forall e :: e in Recorded(heap, entries) <==> e in entries && heap.at(e.ref) != Plain(Null)
  {
    if entries != [] {
      var n := |entries| - 1;
      RecordedExactly(heap, entries[..n]);
      assert entries[..n] + [entries[n]] == entries;
    }
  }

  /** A field is kept exactly if it is what the last recorded entry under its key is coerced to. */
  lemma MetadataExactly(heap: Heap, entries: seq<Entry>, f: Field)
    requires Ordered(heap)
    ensures f in Metadata(heap, entries) <==> LastUnderKey(Coerced(heap, Recorded(heap, entries), 1), f)
    ensures DistinctKeys(Metadata(heap, entries))
    ensures f in Metadata(heap, entries) ==> Fits(f.value, MAX_METADATA_DEPTH - 1)
  {
    var coerced := Coerced(heap, Recorded(heap, entries), 1);
    GatheredExactly(coerced);
    if f in Metadata(heap, entries) {
      var i :| IsLast(coerced, i, f);
      CoercedFits(heap, Recorded(heap, entries)[i].ref, 1);
    }
  }

  /** A mapping of plain values: what a reader of the column hands back. */
  ghost predicate HoldsAll(heap: Heap, entries: seq<Entry>, fields: seq<Field>) {
    && |entries| == |fields|
    && forall i | 0 <= i < |fields| :: entries[i].key == fields[i].key && Holds(heap, entries[i].ref, fields[i].value)
  }

  /** The `i`-th recorded entry is the one its key keeps, and it stands for `None` without being it. */
  ghost predicate KeepsNull(heap: Heap, recorded: seq<Entry>, i: int)
    requires Ordered(heap)
  {
    && 0 <= i < |recorded| && heap.at(Behind(heap, recorded[i].ref)) == Plain(Null)
    && forall j | i < j < |recorded| :: recorded[j].key != recorded[i].key
  }

  ghost predicate KeepsSomeNull(heap: Heap, recorded: seq<Entry>)
    requires Ordered(heap)
  {
    exists i :: KeepsNull(heap, recorded, i)
  }

  predicate NullAt(fields: seq<Field>, k: int) { 0 <= k < |fields| && fields[k].value == Leaf(Null) }

  lemma NullFromMember(heap: Heap, recorded: seq<Entry>, k: int)
    requires Ordered(heap) && NullAt(Gathered(Coerced(heap, recorded, 1)), k)
    ensures KeepsSomeNull(heap, recorded)
  {
    var coerced := Coerced(heap, recorded, 1);
    var f := Gathered(coerced)[k];
    GatheredExactly(coerced);
    assert f in Gathered(coerced);
    var i :| IsLast(coerced, i, f);
    MembersReplaced(heap, recorded[i].ref, 1);
    assert KeepsNull(heap, recorded, i);
  }

  lemma MemberGivesNull(heap: Heap, recorded: seq<Entry>) returns (k: int)
    requires Ordered(heap) && KeepsSomeNull(heap, recorded)
    ensures NullAt(Gathered(Coerced(heap, recorded, 1)), k)
  {
    var i :| KeepsNull(heap, recorded, i);
    var coerced := Coerced(heap, recorded, 1);
    MembersReplaced(heap, recorded[i].ref, 1);
    GatheredExactly(coerced);
    assert IsLast(coerced, i, coerced[i]);
    assert coerced[i] in Gathered(coerced);
    k :| 0 <= k < |Gathered(coerced)| && Gathered(coerced)[k] == coerced[i];
  }

  /** Normalising what was normalised changes nothing exactly unless a member standing for `None` was
      recorded: it is kept as a null, and a null is what the next pass drops. */
  lemma {:induction false} NormalizeTwiceExactly(
    encoded: seq<Field> -> nat, heap: Heap, entries: seq<Entry>, again: Heap, stored: seq<Entry>)
    requires Ordered(heap) && Ordered(again)
    requires encoded(Metadata(heap, entries)) <= MAX_METADATA_BYTES
    requires HoldsAll(again, stored, Metadata(heap, entries))
    ensures NormalizeMetadata(encoded, again, Some(stored)) == NormalizeMetadata(encoded, heap, Some(entries))
       <==> !KeepsSomeNull(heap, Recorded(heap, entries))
  {
    var fields := Metadata(heap, entries);
    NothingFromNothing(heap, entries);
    if KeepsSomeNull(heap, Recorded(heap, entries)) {
      var k := MemberGivesNull(heap, Recorded(heap, entries));
      StoredNullDropped(again, stored, fields, k);
    } else {
      forall k | 0 <= k < |fields| ensures fields[k].value != Leaf(Null) {
        if NullAt(fields, k) { NullFromMember(heap, Recorded(heap, entries), k); }
      }
      StoredStays(heap, entries, again, stored);
    }
  }

  /** `None` and, behind it, a member that stands for it. */
  const HEAP_WITH_MEMBER_OF_NONE: Heap := Heap(r => if r == 1 then Member(0) else Plain(Null), r => "None")

  /** Metadata with such a member is stored with a null, and without it the second time. */
  lemma NullStoredExample()
    ensures Ordered(HEAP_WITH_MEMBER_OF_NONE)
    ensures Metadata(HEAP_WITH_MEMBER_OF_NONE, [Entry("outcome", 1)]) == [Field("outcome", Leaf(Null))]
    ensures Metadata(HEAP_WITH_MEMBER_OF_NONE, [Entry("outcome", 0)]) == []
  {
    var heap, member, none := HEAP_WITH_MEMBER_OF_NONE, [Entry("outcome", 1)], [Entry("outcome", 0)];
    assert member[..0] == [] && none[..0] == [];
    assert Recorded(heap, member) == member && Recorded(heap, none) == [];
    DistinctGathered(Coerced(heap, member, 1));
    assert JsonSafe(heap, 1, 1) == JsonSafe(heap, 0, 1) == Leaf(Null);
  }

  /** A member of a string enumeration is stored as the member, not as its string. */
  lemma MixedMemberExample(str: Ref -> string, depth: nat)
    ensures var heap := Heap(_ => MixedMember(Str("open")), str);
            Ordered(heap) && JsonSafe(heap, 0, depth) == MemberLeaf(Str("open")) != Leaf(Str("open"))
  {
  }

  lemma StoredNullDropped(again: Heap, stored: seq<Entry>, fields: seq<Field>, k: int)
    requires Ordered(again) && HoldsAll(again, stored, fields) && NullAt(fields, k)
    ensures |Metadata(again, stored)| < |fields|
  {
    assert again.at(stored[k].ref) == Plain(Null);
    RecordedExactly(again, stored);
    GatheredExactly(Coerced(again, Recorded(again, stored), 1));
  }

  lemma NothingFromNothing(heap: Heap, entries: seq<Entry>)
    requires Ordered(heap)
    ensures entries == [] ==> Metadata(heap, entries) == []
  {
  }

  lemma StoredStays(heap: Heap, entries: seq<Entry>, again: Heap, stored: seq<Entry>)
    requires Ordered(heap) && Ordered(again) && HoldsAll(again, stored, Metadata(heap, entries))
    requires forall k | 0 <= k < |Metadata(heap, entries)| :: Metadata(heap, entries)[k].value != Leaf(Null)
    ensures Metadata(again, stored) == Metadata(heap, entries)
  {
    var fields := Metadata(heap, entries);
    forall i | 0 <= i < |stored| ensures again.at(stored[i].ref) != Plain(Null) {
      assert Holds(again, stored[i].ref, fields[i].value);
    }
    RecordedExactly(again, stored);
    forall i | 0 <= i < |stored| ensures JsonSafe(again, stored[i].ref, 1) == fields[i].value {
      MetadataExactly(heap, entries, fields[i]);
      KeptAsGivenExactly(again, stored[i].ref, fields[i].value, 1);
    }
    assert Coerced(again, stored, 1) == fields;
    GatheredExactly(Coerced(heap, Recorded(heap, entries), 1));
    DistinctGathered(fields);
  }
}
