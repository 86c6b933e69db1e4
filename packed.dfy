/** Fields of a `#pragma pack(1)` struct: each field occupies exactly
    `Width()` bytes and the next one starts right after it, with no padding.
    A layout is the sequence of the fields' declared types. */
module Packed {
  import opened Bytes
  import opened CTypes

  /** Size of a packed struct with these fields. */
  function TotalWidth(tys: seq<CType>): nat
  {
    if tys == [] then 0 else tys[0].Width() + TotalWidth(tys[1..])
  }

  lemma {:induction false} TotalWidthAppend(a: seq<CType>, b: seq<CType>)
    ensures TotalWidth(a + b) == TotalWidth(a) + TotalWidth(b)
  {
    if a == [] {
      assert a + b == b;
    } else {
      assert (a + b)[1..] == a[1..] + b;
      TotalWidthAppend(a[1..], b);
    }
  }

  /** One value per field, each a value of its field's declared type. */
  predicate Conforms(tys: seq<CType>, vs: seq<int>)
  {
    |vs| == |tys| && (tys == [] || (tys[0].Holds(vs[0]) && Conforms(tys[1..], vs[1..])))
  }

  lemma {:induction false} ConformsEach(tys: seq<CType>, vs: seq<int>)
    ensures Conforms(tys, vs) <==> |vs| == |tys| && forall i :: 0 <= i < |tys| ==> tys[i].Holds(vs[i])
  {
    if tys != [] && |vs| == |tys| {
      ConformsEach(tys[1..], vs[1..]);
      if forall i :: 0 <= i < |tys| ==> tys[i].Holds(vs[i]) {
        forall i | 0 <= i < |tys| - 1 ensures tys[1..][i].Holds(vs[1..][i]) {
          assert tys[1..][i] == tys[i + 1];
        }
      }
      if Conforms(tys, vs) {
        forall i | 0 <= i < |tys| ensures tys[i].Holds(vs[i]) {
          if i > 0 {
            assert tys[1..][i - 1] == tys[i];
          }
        }
      }
    }
  }

  lemma {:induction false} ConformsAppend(a: seq<CType>, va: seq<int>, b: seq<CType>, vb: seq<int>)
    requires Conforms(a, va) && Conforms(b, vb)
    ensures Conforms(a + b, va + vb)
  {
    if a == [] {
      assert a + b == b && va + vb == vb;
    } else {
      ConformsAppend(a[1..], va[1..], b, vb);
      assert (a + b)[1..] == a[1..] + b;
      assert (va + vb)[1..] == va[1..] + vb;
    }
  }

  /** Reads the fields one after the other from `bs`; each value read lies
      within its field's declared type. */
  function DecodeFields(tys: seq<CType>, bs: seq<byte>, order: ByteOrder): (vs: seq<int>)
    requires |bs| == TotalWidth(tys)
    ensures |vs| == |tys|
    ensures Conforms(tys, vs)
  {
    if tys == [] then []
    else
      var w := tys[0].Width();
      var rest := DecodeFields(tys[1..], bs[w..], order);
      var vs := [DecodeValue(tys[0], bs[..w], order)] + rest;
      assert vs[1..] == rest;
      vs
  }

  /** Writes the fields one after the other; DecodeFields reads them back. */
  function EncodeFields(tys: seq<CType>, vs: seq<int>, order: ByteOrder): (bs: seq<byte>)
    requires Conforms(tys, vs)
    ensures |bs| == TotalWidth(tys)
    ensures DecodeFields(tys, bs, order) == vs
  {
    if tys == [] then []
    else
      var head := EncodeValue(tys[0], vs[0], order);
      var rest := EncodeFields(tys[1..], vs[1..], order);
      assert (head + rest)[..tys[0].Width()] == head;
      assert (head + rest)[tys[0].Width()..] == rest;
      head + rest
  }

  lemma {:induction false} EncodeFieldsDecodeFields(tys: seq<CType>, bs: seq<byte>, order: ByteOrder)
    requires |bs| == TotalWidth(tys)
    ensures EncodeFields(tys, DecodeFields(tys, bs, order), order) == bs
  {
    if tys != [] {
      var w := tys[0].Width();
      var vs := DecodeFields(tys, bs, order);
      var rest := DecodeFields(tys[1..], bs[w..], order);
      assert vs[0] == DecodeValue(tys[0], bs[..w], order) && vs[1..] == rest;
      EncodeValueDecodeValue(tys[0], bs[..w], order);
      EncodeFieldsDecodeFields(tys[1..], bs[w..], order);
      assert EncodeFields(tys, vs, order) == bs[..w] + EncodeFields(tys[1..], rest, order);
      assert bs == bs[..w] + bs[w..];
    }
  }

  /** Bytes taken by the first `i` fields. */
  function PrefixWidth(tys: seq<CType>, i: nat): nat
    requires i <= |tys|
  {
    if i == 0 then 0 else tys[0].Width() + PrefixWidth(tys[1..], i - 1)
  }

  /** Field `i` ends within the struct. */
  lemma {:induction false} FieldWithinStruct(tys: seq<CType>, i: nat)
    requires i < |tys|
    ensures PrefixWidth(tys, i) + tys[i].Width() <= TotalWidth(tys)
    ensures PrefixWidth(tys, i + 1) == PrefixWidth(tys, i) + tys[i].Width()
  {
    if i > 0 {
      FieldWithinStruct(tys[1..], i - 1);
    }
  }

  /** Byte offset of each field when the first one starts at `start`. */
  function Offsets(tys: seq<CType>, start: nat): (offs: seq<nat>)
    ensures |offs| == |tys|
  {
    if tys == [] then [] else [start] + Offsets(tys[1..], start + tys[0].Width())
  }

  lemma {:induction false} OffsetsAppend(a: seq<CType>, b: seq<CType>, start: nat)
    ensures Offsets(a + b, start) == Offsets(a, start) + Offsets(b, start + TotalWidth(a))
  {
    if a == [] {
      assert a + b == b;
    } else {
      assert (a + b)[1..] == a[1..] + b;
      OffsetsAppend(a[1..], b, start + a[0].Width());
    }
  }

  /** Field `i` starts right after the fields before it: no padding. */
  lemma {:induction false} OffsetIsPrefixWidth(tys: seq<CType>, start: nat, i: nat)
    requires i < |tys|
    ensures Offsets(tys, start)[i] == start + PrefixWidth(tys, i)
  {
    if i > 0 {
      OffsetIsPrefixWidth(tys[1..], start + tys[0].Width(), i - 1);
    }
  }

  /** The last field ends where the struct ends. */
  lemma LastFieldEndsStruct(tys: seq<CType>, start: nat)
    requires tys != []
    ensures Offsets(tys, start)[|tys| - 1] + tys[|tys| - 1].Width() == start + TotalWidth(tys)
  {
    var n := |tys| - 1;
    OffsetIsPrefixWidth(tys, start, n);
    FieldWithinStruct(tys, n);
    PrefixWidthAll(tys);
  }

  lemma {:induction false} PrefixWidthAll(tys: seq<CType>)
    ensures PrefixWidth(tys, |tys|) == TotalWidth(tys)
  {
    if tys != [] {
      PrefixWidthAll(tys[1..]);
    }
  }

  /** A slice of a slice is a slice of the whole. */
  lemma SliceOfSlice<T>(s: seq<T>, lo: nat, hi: nat, p: nat, k: nat)
    requires lo + p + k <= hi <= |s|
    ensures s[lo..hi][p .. p + k] == s[lo + p .. lo + p + k]
  {
    var inner, outer := s[lo..hi][p .. p + k], s[lo + p .. lo + p + k];
    forall j | 0 <= j < k ensures inner[j] == outer[j] {
    }
  }

  /** Adjacent slices concatenate. */
  lemma SliceConcat<T>(s: seq<T>, i: nat, j: nat, k: nat)
    requires i <= j <= k <= |s|
    ensures s[i..j] + s[j..k] == s[i..k]
  {
  }

  /** The bytes of field `i`, found by skipping the fields before it. */
  function FieldBytes(tys: seq<CType>, bs: seq<byte>, i: nat): (f: seq<byte>)
    requires |bs| == TotalWidth(tys)
    requires i < |tys|
    ensures |f| == tys[i].Width()
  {
    var w := tys[0].Width();
    if i == 0 then bs[..w] else FieldBytes(tys[1..], bs[w..], i - 1)
  }

  /** Field `i` occupies the bytes right after the fields before it. */
  lemma {:induction false} FieldBytesAtOffset(tys: seq<CType>, bs: seq<byte>, i: nat)
    requires |bs| == TotalWidth(tys)
    requires i < |tys|
    ensures PrefixWidth(tys, i) + tys[i].Width() <= |bs|
    ensures FieldBytes(tys, bs, i) == bs[PrefixWidth(tys, i) .. PrefixWidth(tys, i) + tys[i].Width()]
  {
    FieldWithinStruct(tys, i);
    if i > 0 {
      var w := tys[0].Width();
      var rest := bs[w..|bs|];
      assert rest == bs[w..];
      FieldBytesAtOffset(tys[1..], rest, i - 1);
      var p := PrefixWidth(tys[1..], i - 1);
      var k := tys[i].Width();
      assert tys[1..][i - 1] == tys[i];
      assert FieldBytes(tys, bs, i) == rest[p .. p + k];
      SliceOfSlice(bs, w, |bs|, p, k);
    }
  }

  /** Field `i` of the decoded values is read from exactly its own bytes. */
  lemma {:induction false} DecodeFieldAt(tys: seq<CType>, bs: seq<byte>, order: ByteOrder, i: nat)
    requires |bs| == TotalWidth(tys)
    requires i < |tys|
    ensures DecodeFields(tys, bs, order)[i] == DecodeValue(tys[i], FieldBytes(tys, bs, i), order)
  {
    if i > 0 {
      var w := tys[0].Width();
      DecodeFieldAt(tys[1..], bs[w..], order, i - 1);
      assert tys[1..][i - 1] == tys[i];
    }
  }
}
