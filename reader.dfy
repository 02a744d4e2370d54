/** `Reader::from_file`: the 8-byte length prefix, the metadata block, the ordering of tensor
    names by start offset, and the fan-out of the per-tensor decode over those names. */
module SafeTensors {
  import opened Bytes
  import opened Errors
  import opened Io
  import opened Tensors

  /** The `__metadata__` value, passed through untouched; the decoder never looks inside it. */
  datatype Json =
    | JNull
    | JBool(b: bool)
    | JNumber(literal: string)
    | JString(s: string)
    | JArray(elements: seq<Json>)
    | JObject(members: map<string, Json>)

  /** What the JSON deserializer makes of the metadata block: the `__metadata__` value and one
      descriptor per remaining key. */
  datatype Header = Header(metadata: Json, items: map<string, Descriptor>)

  /** The decoded file: the metadata value and one tensor per name. */
  datatype Reader = Reader(metadata: Json, tensors: map<string, Tensor>)

  /** The length prefix, the metadata block it delimits, and the deserializer's verdict on it.
      `parse` stands for `serde_json::from_slice`: `None` is a block it rejects. */
  function ReadHeader(file: seq<u8>, parse: seq<u8> -> Option<Header>): (r: Result<Header>)
    ensures r.Err? ==> r.error == UnexpectedEof || r.error == InvalidJson
    ensures r.Err? && r.error == InvalidJson ==>
              |file| >= 8 && 8 + LeValue(file[..8]) <= |file| && parse(file[8..8 + LeValue(file[..8])]).None?
    ensures r.Ok? ==>
              |file| >= 8 && 8 + LeValue(file[..8]) <= |file| && parse(file[8..8 + LeValue(file[..8])]) == Some(r.value)
  {
    if |file| < 8 then Err(UnexpectedEof)
    else
      var n := U64FromLe(file[..8]);
      if 8 + n > |file| then Err(UnexpectedEof)
      else match parse(file[8..8 + n])
        case None => Err(InvalidJson)
        case Some(h) => Ok(h)
  }

  /** A file laid out as an 8-byte little-endian length, that many metadata bytes, and anything
      after them yields the deserializer's verdict on exactly those metadata bytes. */
  lemma HeaderRoundTrip(meta: seq<u8>, rest: seq<u8>, parse: seq<u8> -> Option<Header>)
    requires |meta| < U64_LIMIT
    ensures ReadHeader(LeBytes(|meta|, 8) + meta + rest, parse)
         == match parse(meta) case None => Err(InvalidJson) case Some(h) => Ok(h)
  {
    U64FromLeOfLeBytes(|meta|);
    ReadHeaderOfLayout(LeBytes(|meta|, 8), meta, rest, parse);
  }

  /** A file laid out as a length prefix naming `|meta|`, then `meta`, then anything. */
  lemma ReadHeaderOfLayout(prefix: seq<u8>, meta: seq<u8>, rest: seq<u8>, parse: seq<u8> -> Option<Header>)
    requires |prefix| == 8 && U64FromLe(prefix) == |meta|
    ensures ReadHeader(prefix + meta + rest, parse)
         == match parse(meta) case None => Err(InvalidJson) case Some(h) => Ok(h)
  {
    var file := prefix + meta + rest;
    assert file[..8] == prefix;
    assert file[8..8 + |meta|] == meta;
  }

  /** Conversely, a file whose header is read has exactly that layout: its first 8 bytes encode
      the length `N` of the block that was handed to the deserializer, truncation before byte
      `8` or before byte `8 + N` being an `UnexpectedEof`. */
  lemma HeaderLayout(file: seq<u8>, parse: seq<u8> -> Option<Header>)
    ensures |file| < 8 ==> ReadHeader(file, parse) == Err(UnexpectedEof)
    ensures |file| >= 8 && 8 + LeValue(file[..8]) > |file| ==> ReadHeader(file, parse) == Err(UnexpectedEof)
    ensures ReadHeader(file, parse) != Err(UnexpectedEof) ==>
              exists meta, rest :: file == LeBytes(|meta|, 8) + meta + rest
                                   && ReadHeader(file, parse) == match parse(meta)
                                        case None => Err(InvalidJson) case Some(h) => Ok(h)
  {
    if |file| >= 8 && 8 + LeValue(file[..8]) <= |file| {
      var n := U64FromLe(file[..8]);
      var meta, rest := file[8..8 + n], file[8 + n..];
      assert file == file[..8] + meta + rest;
      assert LeBytes(|meta|, 8) == file[..8];
    }
  }

  /** The sort key of `ordered_keys`: `data_offsets[0]` of the name's descriptor (0 where there
      is none, which the sort never reaches). */
  function Start(items: map<string, Descriptor>, k: string): nat {
    if k in items && |items[k].dataOffsets| > 0 then items[k].dataOffsets[0] else 0
  }

  predicate SortedByStart(items: map<string, Descriptor>, ks: seq<string>) {
    forall p, q :: 0 <= p < q < |ks| ==> Start(items, ks[p]) <= Start(items, ks[q])
  }

  predicate Distinct(ks: seq<string>) {
    forall p, q :: 0 <= p < q < |ks| ==> ks[p] != ks[q]
  }

  /** `ks` lists every name of `names` exactly once. */
  predicate Enumerates(ks: seq<string>, names: set<string>) {
    && Distinct(ks)
    && (forall k :: k in ks ==> k in names)
    && (forall k :: k in names ==> k in ks)
  }

  method Swap(a: array<string>, i: nat, j: nat)
    requires i < a.Length && j < a.Length
    modifies a
    ensures a[..] == old(a[..])[i := old(a[j])][j := old(a[i])]
    ensures a[i] == old(a[j]) && a[j] == old(a[i])
    ensures forall k :: 0 <= k < a.Length && k != i && k != j ==> a[k] == old(a[k])
    ensures multiset(a[..]) == multiset(old(a[..]))
  {
    a[i], a[j] := a[j], a[i];
  }

  /** The state of one insertion pass over `s` (which started as `s0`): the entry being moved
      sits at `j`, everything else up to `i` is sorted, the entry is smaller than all entries
      to its right up to `i`, the first `i + 1` entries are a permutation of the original ones
      and the rest is untouched. */
  ghost predicate Inserting(items: map<string, Descriptor>, s: seq<string>, s0: seq<string>, i: nat, j: nat) {
    && j <= i < |s| == |s0|
    && (forall p, q :: 0 <= p < q <= i && p != j && q != j ==> Start(items, s[p]) <= Start(items, s[q]))
    && (forall q :: j < q <= i ==> Start(items, s[j]) < Start(items, s[q]))
    && multiset(s[..i + 1]) == multiset(s0[..i + 1])
    && s[i + 1..] == s0[i + 1..]
  }

  /** A pass starts with the entry at `i` in place and the entries before it sorted. */
  lemma InsertStart(items: map<string, Descriptor>, s: seq<string>, i: nat)
    requires i < |s|
    requires forall p, q :: 0 <= p < q < i ==> Start(items, s[p]) <= Start(items, s[q])
    ensures Inserting(items, s, s, i, i)
  {
  }

  /** Exchanging the moving entry with a larger left neighbour keeps the pass's state. */
  lemma InsertStep(items: map<string, Descriptor>, s: seq<string>, s0: seq<string>, i: nat, j: nat)
    requires Inserting(items, s, s0, i, j) && 0 < j && Start(items, s[j - 1]) > Start(items, s[j])
    ensures Inserting(items, s[j - 1 := s[j]][j := s[j - 1]], s0, i, j - 1)
  {
    var t := s[j - 1 := s[j]][j := s[j - 1]];
    assert t[..i + 1] == s[..i + 1][j - 1 := s[j]][j := s[j - 1]];
    assert t[i + 1..] == s[i + 1..];
  }

  /** Once the moving entry meets no larger left neighbour, the first `i + 1` entries are
      sorted. */
  lemma InsertDone(items: map<string, Descriptor>, s: seq<string>, s0: seq<string>, i: nat, j: nat)
    requires Inserting(items, s, s0, i, j) && (j == 0 || Start(items, s[j - 1]) <= Start(items, s[j]))
    ensures forall p, q :: 0 <= p < q <= i ==> Start(items, s[p]) <= Start(items, s[q])
    ensures multiset(s) == multiset(s0)
    ensures multiset(s[..i + 1]) == multiset(s0[..i + 1]) && s[i + 1..] == s0[i + 1..]
  {
    assert s == s[..i + 1] + s[i + 1..];
    assert s0 == s0[..i + 1] + s0[i + 1..];
  }

  /** Moves `a[i]` left past every larger start, so that `a[..i + 1]` becomes sorted. */
  method InsertIntoPrefix(a: array<string>, items: map<string, Descriptor>, i: nat)
    requires i < a.Length
    requires forall p, q :: 0 <= p < q < i ==> Start(items, a[p]) <= Start(items, a[q])
    modifies a
    ensures forall p, q :: 0 <= p < q <= i ==> Start(items, a[p]) <= Start(items, a[q])
    ensures multiset(a[..]) == multiset(old(a[..]))
    ensures multiset(a[..i + 1]) == multiset(old(a[..i + 1]))
    ensures a[i + 1..] == old(a[i + 1..])
  {
    var j := i;
    InsertStart(items, a[..], i);
    while 0 < j && Start(items, a[j - 1]) > Start(items, a[j])
      invariant 0 <= j <= i
      invariant Inserting(items, a[..], old(a[..]), i, j)
    {
      InsertStep(items, a[..], old(a[..]), i, j);
      Swap(a, j - 1, j);
      j := j - 1;
    }
    InsertDone(items, a[..], old(a[..]), i, j);
  }

  /** `ordered_keys.sort_by_key(..)`, in place on the vector of names, as an insertion sort. */
  method SortByStart(a: array<string>, items: map<string, Descriptor>)
    modifies a
    ensures SortedByStart(items, a[..])
    ensures multiset(a[..]) == multiset(old(a[..]))
  {
    var i := 0;
    while i < a.Length
      invariant 0 <= i <= a.Length
      invariant forall p, q :: 0 <= p < q < i ==> Start(items, a[p]) <= Start(items, a[q])
      invariant multiset(a[..]) == multiset(old(a[..]))
    {
      InsertIntoPrefix(a, items, i);
      i := i + 1;
    }
  }

  lemma {:induction false} DistinctCount(s: seq<string>, x: string)
    requires Distinct(s)
    ensures multiset(s)[x] <= 1
  {
    if s != [] {
      assert s == [s[0]] + s[1..];
      assert Distinct(s[1..]);
      DistinctCount(s[1..], x);
      if s[0] == x {
        assert x !in s[1..];
      }
    }
  }

  /** Reordering a list of distinct names keeps it a list of the same distinct names. */
  lemma PermutationEnumerates(s: seq<string>, t: seq<string>, names: set<string>)
    requires Enumerates(s, names) && multiset(s) == multiset(t)
    ensures Enumerates(t, names)
  {
    forall k
      ensures k in t <==> k in names
    {
      assert k in t <==> k in multiset(t);
      assert k in s <==> k in multiset(s);
    }
    forall p, q | 0 <= p < q < |t|
      ensures t[p] != t[q]
    {
      if t[p] == t[q] {
        var x := t[p];
        assert t == t[..q] + t[q..];
        assert x in t[..q] && x in t[q..];
        assert multiset(t)[x] == multiset(t[..q])[x] + multiset(t[q..])[x];
        DistinctCount(s, x);
        assert false;
      }
    }
  }

  /** `ordered_keys`: every name of the table exactly once, ordered by start offset. Once there
      are two names the sort reads `data_offsets[0]` of each, so a descriptor without offsets
      makes it fail. */
  method OrderedKeys(items: map<string, Descriptor>) returns (r: Result<seq<string>>)
    ensures r.Err? <==> |items| >= 2 && exists k :: k in items && |items[k].dataOffsets| == 0
    ensures r.Err? ==> r.error == IndexOutOfBounds
    ensures r.Ok? ==> Enumerates(r.value, items.Keys) && SortedByStart(items, r.value)
  {
    // `items.keys().collect()`: a hash map yields its keys in no particular order.
    var keys: seq<string> := [];
    var rest := items.Keys;
    while rest != {}
      invariant rest <= items.Keys
      invariant Distinct(keys)
      invariant forall k :: k in keys ==> k !in rest
      invariant forall k :: k in items <==> k in keys || k in rest
      invariant |keys| + |rest| == |items|
      decreases |rest|
    {
      var k :| k in rest;
      keys := keys + [k];
      rest := rest - {k};
    }
    if |keys| >= 2 {
      var i := 0;
      while i < |keys|
        invariant 0 <= i <= |keys|
        invariant forall p :: 0 <= p < i ==> |items[keys[p]].dataOffsets| > 0
      {
        if |items[keys[i]].dataOffsets| == 0 {
          return Err(IndexOutOfBounds);
        }
        i := i + 1;
      }
      var a := new string[|keys|](p requires 0 <= p < |keys| => keys[p]);
      assert a[..] == keys;
      SortByStart(a, items);
      PermutationEnumerates(keys, a[..], items.Keys);
      keys := a[..];
    }
    r := Ok(keys);
  }

  /** Whether every descriptor of the table decodes. */
  predicate AllDecode(file: seq<u8>, items: map<string, Descriptor>) {
    forall k :: k in items ==> DecodeTensor(file, items[k]).Ok?
  }

  /** The tensor map: every name of the table with its decoded tensor. It is built from the
      table alone, so it is the same whatever order the names are processed in. */
  function DecodeAll(file: seq<u8>, items: map<string, Descriptor>): (m: map<string, Tensor>)
    requires AllDecode(file, items)
    ensures m.Keys == items.Keys
    ensures forall k :: k in m ==> DecodeTensor(file, items[k]) == Ok(m[k])
  {
    map k | k in items :: DecodeTensor(file, items[k]).value
  }

  /** A map holding every name's decoded tensor, and nothing else, is the tensor map. */
  lemma DecodedMapIsDecodeAll(file: seq<u8>, items: map<string, Descriptor>, m: map<string, Tensor>)
    requires forall k :: k in items ==> k in m
    requires forall k :: k in m ==> k in items && DecodeTensor(file, items[k]) == Ok(m[k])
    ensures AllDecode(file, items) && m == DecodeAll(file, items)
  {
  }

  /** The first part of `Reader::from_file`: the length prefix and the metadata block read
      through one handle from offset 0, and handed to the deserializer. */
  method ReadHeaderFrom(f: FileHandle, parse: seq<u8> -> Option<Header>) returns (r: Result<Header>)
    requires f.pos == 0
    modifies f
    ensures r == ReadHeader(f.contents, parse)
  {
    var nBytes := ReadBytes(f, 8);
    if nBytes.Err? {
      return Err(nBytes.error);
    }
    var n := U64FromLe(nBytes.value);
    var jsonBytes := ReadBytes(f, n);
    if jsonBytes.Err? {
      return Err(jsonBytes.error);
    }
    var parsed := parse(jsonBytes.value);
    if parsed.None? {
      return Err(InvalidJson);
    }
    r := Ok(parsed.value);
  }

  /** The fan-out of `Reader::from_file`: every name decoded through `LoadTensor` and collected
      into one map. The tasks share nothing, so the model runs them one after the other; the
      outcome is the full tensor map when every tensor decodes, and otherwise the failure of one
      of them. */
  method LoadAll(file: seq<u8>, items: map<string, Descriptor>, keys: seq<string>)
    returns (r: Result<map<string, Tensor>>)
    requires Enumerates(keys, items.Keys)
    ensures r.Ok? <==> AllDecode(file, items)
    ensures r.Ok? ==> r.value == DecodeAll(file, items)
    ensures r.Err? ==> exists k :: k in items && DecodeTensor(file, items[k]) == Err(r.error)
  {
    var tensors: map<string, Tensor> := map[];
    var i := 0;
    while i < |keys|
      invariant 0 <= i <= |keys|
      invariant forall p :: 0 <= p < i ==> keys[p] in tensors
      invariant forall k :: k in tensors ==> k in items && DecodeTensor(file, items[k]) == Ok(tensors[k])
    {
      var t := LoadTensor(file, items[keys[i]]);
      if t.Err? {
        return Err(t.error);
      }
      tensors := tensors[keys[i] := t.value];
      i := i + 1;
    }
    assert forall k :: k in items ==> k in keys;
    DecodedMapIsDecodeAll(file, items, tensors);
    r := Ok(tensors);
  }

  /** `Reader::from_file`: the header, the ordered names, and the tensors decoded from them;
      the metadata value is passed through. */
  method FromFile(file: seq<u8>, parse: seq<u8> -> Option<Header>) returns (r: Result<Reader>)
    ensures ReadHeader(file, parse).Err? ==> r == Err(ReadHeader(file, parse).error)
    ensures ReadHeader(file, parse).Ok? ==>
              var h := ReadHeader(file, parse).value;
              && (r.Ok? <==> AllDecode(file, h.items))
              && (r.Ok? ==> r.value == Reader(h.metadata, DecodeAll(file, h.items)))
              && (r.Err? ==> exists k :: k in h.items && DecodeTensor(file, h.items[k]) == Err(r.error))
  {
    var f := new FileHandle.Open(file);
    var header := ReadHeaderFrom(f, parse);
    if header.Err? {
      return Err(header.error);
    }
    var h := header.value;
    var ordered := OrderedKeys(h.items);
    if ordered.Err? {
      ghost var k :| k in h.items && |h.items[k].dataOffsets| == 0;
      return Err(ordered.error);
    }
    var tensors := LoadAll(file, h.items, ordered.value);
    if tensors.Err? {
      return Err(tensors.error);
    }
    r := Ok(Reader(h.metadata, tensors.value));
  }

  /** Every tensor of a decoded file carries its descriptor's shape and the variant its dtype
      names, and the names are exactly the table's names. */
  lemma ShapesMatchDescriptors(file: seq<u8>, items: map<string, Descriptor>)
    requires AllDecode(file, items)
    ensures DecodeAll(file, items).Keys == items.Keys
    ensures forall k :: k in items ==>
              && DecodeAll(file, items)[k].Shape() == items[k].shape
              && SupportedDtype(items[k].dtype)
  {
    forall k | k in items
      ensures DecodeAll(file, items)[k].Shape() == items[k].shape && SupportedDtype(items[k].dtype)
    {
      DecodedMatchesDescriptor(file, items[k]);
    }
  }
}
