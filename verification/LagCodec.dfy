/**
 The field codec of a `LagBook`: how a payload is staged into presence masks, packed words and
 carried values, and how a stored row is read back.

 A 64-bit field mask is a set of field numbers below 64. Packing one value into the words of a row,
 and unpacking it, are parameters of the codec; `Faithful` is what a scalar codec promises of them.
 */
module LagCodec {
  import opened Wrappers

  const MASK_FIELDS: nat := 64

  /** A column's name. */
  type Key = string

  datatype Codec = Codec(
    keys: seq<Key>,
    words: nat,
    holds: (nat, Variant) -> bool,
    encode: (nat, Variant, seq<bv64>) -> (seq<bv64>, bool),
    decode: (nat, seq<bv64>) -> Option<Variant>
  )

  /** Only the first 64 columns are kept. */
  function FieldCount(codec: Codec): (n: nat)
    ensures n <= |codec.keys| && n <= MASK_FIELDS
  {
    if |codec.keys| <= MASK_FIELDS then |codec.keys| else MASK_FIELDS
  }

  /** A packer never changes how many words a row has. */
  ghost predicate KeepsWidth(codec: Codec) {
    forall field, value, image {:trigger codec.encode(field, value, image)} ::
      |image| == codec.words ==> |codec.encode(field, value, image).0| == codec.words
  }

  /** The codec of `compile_keys`: every column is sized by its value, so nothing is packed. */
  function KeysCodec(keys: seq<Key>): Codec {
    Codec(keys, 1, (field, value) => false, (field, value, image) => (image, false), (field, image) => None)
  }

  /** One column of a source codec: its name, and what sealing sizes it by. */
  datatype Column = Column(key: Key, quantiser: int, kind: int, schema: int)

  /** The columns whose names are declared, in their order; all of them when nothing is. */
  function Declared(columns: seq<Column>, declared: seq<Key>): (kept: seq<Column>)
    ensures forall c :: c in kept <==> c in columns && (declared == [] || c.key in declared)
    ensures |kept| <= |columns| && (declared == [] ==> |kept| == |columns|)
  {
    if columns == [] then []
    else
      var early, last := Declared(columns[..|columns| - 1], declared), columns[|columns| - 1];
      if declared == [] || last.key in declared then early + [last] else early
  }

  /** Each column is kept or dropped on its own name, and those kept stay in their order. */
  lemma DeclaredInOrder(columns: seq<Column>, column: Column, declared: seq<Key>)
    ensures Declared(columns + [column], declared) ==
              Declared(columns, declared) + if declared == [] || column.key in declared then [column] else []
  {
    assert (columns + [column])[..|columns|] == columns;
  }

  method Declares(declared: seq<Key>, key: Key) returns (yes: bool)
    ensures yes == (declared == [] || key in declared)
  {
    if declared == [] {
      return true;
    }
    for at := 0 to |declared|
      invariant key !in declared[..at]
    {
      if declared[at] == key {
        return true;
      }
    }
    return false;
  }

  /** The loop of `compile`. */
  method Keep(columns: seq<Column>, declared: seq<Key>) returns (kept: seq<Column>)
    ensures kept == Declared(columns, declared)
  {
    kept := [];
    for at := 0 to |columns|
      invariant kept == Declared(columns[..at], declared)
    {
      assert columns[..at + 1][..at] == columns[..at];
      var yes := Declares(declared, columns[at].key);
      if !yes {
        continue;
      }
      kept := kept + [columns[at]];
    }
    assert columns[..|columns|] == columns;
  }

  /** What one ring slot keeps of a payload. */
  datatype Row = Row(present: set<int>, coded: set<int>, image: seq<bv64>, carried: seq<Variant>)

  function Filled<T>(count: nat, value: T): (list: seq<T>)
    ensures |list| == count
    ensures forall i :: 0 <= i < count ==> list[i] == value
  {
    seq(count, i => value)
  }

  /** `CodeRow::clear` */
  function ClearWords(words: nat): (image: seq<bv64>) {
    Filled(words, 0)
  }

  // ----- staging -----

  /** The row after the first `n` fields of `payload` have been staged. */
  ghost function StagedUpTo(codec: Codec, payload: map<Key, Variant>, n: nat): (row: Row)
    requires n <= FieldCount(codec) && KeepsWidth(codec)
    ensures |row.image| == codec.words && |row.carried| == FieldCount(codec)
    ensures row.coded <= row.present
    ensures forall f :: f in row.present ==> f < n
    ensures forall f :: 0 <= f < FieldCount(codec) && f !in row.present - row.coded ==> row.carried[f] == Nil
  {
    if n == 0 then Row({}, {}, ClearWords(codec.words), Filled(FieldCount(codec), Nil))
    else
      var row, f := StagedUpTo(codec, payload, n - 1), n - 1;
      if codec.keys[f] !in payload then row
      else
        var value := payload[codec.keys[f]];
        var packed := if codec.holds(f, value) then codec.encode(f, value, row.image) else (row.image, false);
        if packed.1 then Row(row.present + {f}, row.coded + {f}, packed.0, row.carried)
        else Row(row.present + {f}, row.coded, packed.0, row.carried[f := value])
  }

  ghost function Staged(codec: Codec, payload: map<Key, Variant>): Row
    requires KeepsWidth(codec)
  {
    StagedUpTo(codec, payload, FieldCount(codec))
  }

  // ----- reading back -----

  /** What a stored row says of field `f`. */
  ghost function FieldValue(codec: Codec, row: Row, f: nat): Option<Variant>
    requires f < |row.carried|
  {
    if f !in row.present then None
    else if f !in row.coded then Some(row.carried[f])
    else codec.decode(f, row.image)
  }

  /** The dictionary built from the first `n` fields of a stored row. */
  ghost function ReadUpTo(codec: Codec, row: Row, n: nat): map<Key, Variant>
    requires n <= FieldCount(codec) <= |row.carried|
  {
    if n == 0 then map[]
    else
      var read, value := ReadUpTo(codec, row, n - 1), FieldValue(codec, row, n - 1);
      if value.Some? then read[codec.keys[n - 1] := value.value] else read
  }

  ghost function Read(codec: Codec, row: Row): map<Key, Variant>
    requires FieldCount(codec) <= |row.carried|
  {
    ReadUpTo(codec, row, FieldCount(codec))
  }

  // ----- what a scalar codec promises -----

  /**
   Packing field `f` disturbs no other field's value, and a value that was packed unpacks to its
   quantised form.
   */
  ghost predicate Faithful(codec: Codec, quantised: (nat, Variant) -> Variant) {
    && KeepsWidth(codec)
    && (forall f, value, image, g {:trigger codec.encode(f, value, image), codec.decode(g, image)} ::
          |image| == codec.words && g != f ==>
            codec.decode(g, codec.encode(f, value, image).0) == codec.decode(g, image))
    && (forall f, value, image {:trigger codec.encode(f, value, image)} ::
          |image| == codec.words && codec.holds(f, value) && codec.encode(f, value, image).1 ==>
            codec.decode(f, codec.encode(f, value, image).0) == Some(quantised(f, value)))
    && (forall f, value {:trigger quantised(f, value)} ::
          !codec.holds(f, value) || !codec.encode(f, value, ClearWords(codec.words)).1 ==> quantised(f, value) == value)
    && (forall f, value, image {:trigger codec.encode(f, value, image)} ::
          |image| == codec.words ==>
            codec.encode(f, value, image).1 == codec.encode(f, value, ClearWords(codec.words)).1)
  }

  /** The columns have distinct names. */
  ghost predicate DistinctKeys(keys: seq<Key>) {
    forall i, j :: 0 <= i < j < |keys| ==> keys[i] != keys[j]
  }

  /** What each staged field reads back as, packed or carried. */
  lemma {:induction false} StagedFieldReads(codec: Codec, quantised: (nat, Variant) -> Variant,
                                            payload: map<Key, Variant>, n: nat, f: nat)
    requires Faithful(codec, quantised) && f < n <= FieldCount(codec)
    ensures FieldValue(codec, StagedUpTo(codec, payload, n), f)
         == if codec.keys[f] in payload then Some(quantised(f, payload[codec.keys[f]])) else None
  {
    var before := StagedUpTo(codec, payload, n - 1);
    if f < n - 1 {
      StagedFieldReads(codec, quantised, payload, n - 1, f);
      assert codec.decode(f, before.image) == codec.decode(f, StagedUpTo(codec, payload, n).image);
    } else {
      assert f !in before.present;
    }
  }

  lemma {:induction false} ReadKeys(codec: Codec, row: Row, n: nat, f: nat)
    requires n <= FieldCount(codec) <= |row.carried| && DistinctKeys(codec.keys) && f < FieldCount(codec)
    ensures var read := ReadUpTo(codec, row, n);
            && (codec.keys[f] in read <==> f < n && FieldValue(codec, row, f).Some?)
            && (codec.keys[f] in read ==> read[codec.keys[f]] == FieldValue(codec, row, f).value)
  {
    if n > 0 {
      ReadKeys(codec, row, n - 1, f);
    }
  }

  lemma {:induction false} ReadOnlyKeys(codec: Codec, row: Row, n: nat, key: Key)
    requires n <= FieldCount(codec) <= |row.carried| && key in ReadUpTo(codec, row, n)
    ensures key in codec.keys[..FieldCount(codec)]
  {
    if n > 0 && codec.keys[n - 1] != key {
      ReadOnlyKeys(codec, row, n - 1, key);
    }
  }

  /**
   What comes back of a payload: every key of it among the first 64 names and no other, each with its
   quantised value. With at most 64 names that is every key of the payload that is named at all.
   */
  ghost predicate ReadsBack(keys: seq<Key>, quantised: (nat, Variant) -> Variant, payload: map<Key, Variant>,
                            read: map<Key, Variant>)
  {
    && (forall key :: key in read <==> key in payload && exists i :: 0 <= i < |keys| && i < 64 && keys[i] == key)
    && (forall i :: 0 <= i < |keys| && i < 64 && keys[i] in payload ==>
          keys[i] in read && read[keys[i]] == quantised(i, payload[keys[i]]))
  }

  /** Staging a payload and reading it back gives the payload cut to the first 64 columns, quantised. */
  lemma StagedReadsBack(codec: Codec, quantised: (nat, Variant) -> Variant, payload: map<Key, Variant>)
    requires Faithful(codec, quantised) && DistinctKeys(codec.keys)
    ensures ReadsBack(codec.keys, quantised, payload, Read(codec, Staged(codec, payload)))
  {
    var row, n := Staged(codec, payload), FieldCount(codec);
    var read := Read(codec, row);
    forall f | 0 <= f < n
      ensures codec.keys[f] in read <==> codec.keys[f] in payload
      ensures codec.keys[f] in payload ==> read[codec.keys[f]] == quantised(f, payload[codec.keys[f]])
    {
      StagedFieldReads(codec, quantised, payload, n, f);
      ReadKeys(codec, row, n, f);
    }
    forall key | key in read
      ensures key in payload && exists i :: 0 <= i < |codec.keys| && i < 64 && codec.keys[i] == key
    {
      ReadOnlyKeys(codec, row, n, key);
      var f :| 0 <= f < n && codec.keys[..n][f] == key;
      assert codec.keys[f] == key;
    }
    assert n == if |codec.keys| <= 64 then |codec.keys| else 64;
  }

  /** With at most 64 names, all of the payload that is named comes back. */
  lemma NamedReadsBack(keys: seq<Key>, quantised: (nat, Variant) -> Variant, payload: map<Key, Variant>,
                       read: map<Key, Variant>, key: Key)
    requires ReadsBack(keys, quantised, payload, read) && |keys| <= 64
    ensures key in read <==> key in payload && key in keys
  {
  }

  /** The codec of `compile_keys` packs nothing, so it is faithful and changes no value. */
  lemma KeysCodecIsFaithful(keys: seq<Key>)
    ensures Faithful(KeysCodec(keys), (f: nat, value: Variant) => value)
  {
  }

  /** With it, staging and reading back is exactly the payload cut to the first 64 columns. */
  lemma KeysCodecReadsBack(keys: seq<Key>, payload: map<Key, Variant>)
    requires DistinctKeys(keys)
    ensures Read(KeysCodec(keys), Staged(KeysCodec(keys), payload)) ==
              map key | key in payload && (exists i :: 0 <= i < |keys| && i < 64 && keys[i] == key) :: payload[key]
  {
    KeysCodecIsFaithful(keys);
    StagedReadsBack(KeysCodec(keys), (f: nat, value: Variant) => value, payload);
    var read := Read(KeysCodec(keys), Staged(KeysCodec(keys), payload));
    hide Read, Staged, Faithful, KeysCodec;
    forall key | key in read
      ensures read[key] == payload[key]
    {
      var i :| 0 <= i < |keys| && i < 64 && keys[i] == key;
    }
  }

  /** And with at most 64 names it is all of the payload that is named. */
  lemma KeysCodecReadsAll(keys: seq<Key>, payload: map<Key, Variant>)
    requires DistinctKeys(keys) && |keys| <= 64
    ensures Read(KeysCodec(keys), Staged(KeysCodec(keys), payload)) ==
              map key | key in payload && key in keys :: payload[key]
  {
    hide Read, Staged;
    KeysCodecReadsBack(keys, payload);
  }
}
