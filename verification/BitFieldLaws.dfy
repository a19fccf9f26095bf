/** What readers and writers of bit fields may rely on across several calls. */
module BitFieldLaws {
  import opened BitField
  import opened BitString
  import opened CWord

  predicate Disjoint(p: nat, m: nat, q: nat, n: nat)
  {
    p + m <= q || q + n <= p
  }

  /** Reading the field just written returns the value, in the arithmetic form that get_bitfield computes. */
  lemma SetThenGet(before: seq<U8>, after: seq<U8>, offset: nat, n: nat, value: nat)
    requires Written(before, after, offset, n, value)
    ensures BE(after) / Pow2(8 * |after| - offset - n) % Pow2(n) == value
  {
    FieldIsArithmetic(after, offset, n);
  }

  /** A disjoint field reads as before. */
  lemma SetKeepsDisjointField(before: seq<U8>, after: seq<U8>, offset: nat, n: nat, value: nat, q: nat, m: nat)
    requires Written(before, after, offset, n, value)
    requires q + m <= 8 * |before| && Disjoint(offset, n, q, m)
    ensures BE(after) / Pow2(8 * |after| - q - m) % Pow2(m) == BE(before) / Pow2(8 * |before| - q - m) % Pow2(m)
  {
    FieldIsArithmetic(after, q, m);
    FieldIsArithmetic(before, q, m);
    FieldsAgree(after, q, before, q, m);
  }

  /** Two byte strings that agree on a field and on every bit outside it are equal. */
  lemma FieldAndRestDetermine(s: seq<U8>, t: seq<U8>, offset: nat, n: nat)
    requires |s| == |t| && offset + n <= 8 * |s| && Field(s, offset, n) == Field(t, offset, n)
    requires forall p :: 0 <= p < 8 * |s| && !(offset <= p < offset + n) ==> Bit(s, p) == Bit(t, p)
    ensures s == t
  {
    FieldsAgree(s, offset, t, offset, n);
    forall p | 0 <= p < 8 * |s|
      ensures Bit(s, p) == Bit(t, p)
    {
      if offset <= p < offset + n {
        assert p - offset + offset == p;
      }
    }
    BitsDetermineBytes(s, t);
  }

  /** Writes to disjoint fields commute. */
  lemma DisjointSetsCommute(start: seq<U8>, ab: seq<U8>, ba: seq<U8>, a: seq<U8>, b: seq<U8>,
                            p: nat, m: nat, v: nat, q: nat, n: nat, w: nat)
    requires Disjoint(p, m, q, n)
    requires Written(start, a, p, m, v) && Written(a, ab, q, n, w)
    requires Written(start, b, q, n, w) && Written(b, ba, p, m, v)
    ensures ab == ba
  {
    FieldsAgree(b, q, ba, q, n);
    FieldsAgree(a, p, ab, p, m);
    FieldsAgree(ab, p, ba, p, m);
    forall i | 0 <= i < 8 * |start| && !(q <= i < q + n)
      ensures Bit(ab, i) == Bit(ba, i)
    {
      assert Bit(ab, i) == Bit(a, i);
      if p <= i < p + m {
        assert i - p + p == i;
      }
    }
    FieldAndRestDetermine(ab, ba, q, n);
  }

  /** The last write to a field wins. */
  lemma LastSetWins(start: seq<U8>, mid: seq<U8>, end: seq<U8>, direct: seq<U8>, p: nat, n: nat, v: nat, w: nat)
    requires Written(start, mid, p, n, v) && Written(mid, end, p, n, w) && Written(start, direct, p, n, w)
    ensures end == direct
  {
    forall i | 0 <= i < 8 * |start| && !(p <= i < p + n)
      ensures Bit(end, i) == Bit(direct, i)
    {
      assert Bit(end, i) == Bit(mid, i);
    }
    FieldAndRestDetermine(end, direct, p, n);
  }

  /** Writing back what a field already holds changes nothing. */
  lemma SetOfGetIsIdentity(before: seq<U8>, after: seq<U8>, p: nat, n: nat)
    requires p + n <= 8 * |before|
    requires Written(before, after, p, n, Field(before, p, n))
    ensures after == before
  {
    FieldAndRestDetermine(after, before, p, n);
  }
}
