/** Vectors that grow in steps as elements are put in at consecutive indices. */
module Vector {
  import opened Arithmetic
  import opened Sequences

  /** A call with idx reallocates only at multiples of the step; from idx on everything is then zero. */
  function Grown<T>(v: seq<T>, shift: nat, idx: nat, zero: T): (w: seq<T>)
    requires idx % Power2(shift) == 0 ==> idx <= |v|
  {
    if idx % Power2(shift) == 0 then v[..idx] + Repeat(Power2(shift) + 1, zero) else v
  }

  /** xrealloc_vector_helper; a null vector is an array without elements. */
  method XreallocVector<T>(v: array<T>, shift: nat, idx: nat, zero: T) returns (w: array<T>)
    requires idx % Power2(shift) == 0 ==> idx <= v.Length
    ensures w[..] == Grown(v[..], shift, idx, zero)
    ensures w == v || fresh(w)
  {
    var mask := Power2(shift);
    w := v;
    if idx % mask == 0 {
      w := new T[idx + mask + 1](_ => zero);
      for i := 0 to idx
        invariant w[..i] == v[..i]
        invariant forall j :: idx <= j < w.Length ==> w[j] == zero
      {
        w[i] := v[i];
      }
      assert w[..] == v[..idx] + Repeat(mask + 1, zero);
    }
  }

  /** A vector into which idx elements have been put at consecutive indices, growing it before each. */
  predicate Consecutive<T(==)>(v: seq<T>, shift: nat, idx: nat, zero: T) {
    var mask := Power2(shift);
    && |v| == (if idx == 0 then 0 else (idx - 1) / mask * mask + mask + 1)
    && forall i :: idx <= i < |v| ==> v[i] == zero
  }

  /** The last multiple of mask before idx. */
  lemma Steps(idx: nat, mask: nat)
    requires mask >= 1 && idx > 0
    ensures var last := (idx - 1) / mask * mask;
            && last <= idx - 1 < last + mask
            && (idx % mask == 0 ==> last + mask == idx)
            && (idx % mask != 0 ==> idx < last + mask && idx / mask * mask == last)
  {
    var q, r := (idx - 1) / mask, (idx - 1) % mask;
    assert idx - 1 == q * mask + r;
    if r + 1 == mask {
      Quotient(idx, q + 1, 0, mask);
    } else {
      Quotient(idx, q, r + 1, mask);
    }
  }

  lemma GrownShape<T>(v: seq<T>, shift: nat, idx: nat, zero: T)
    requires Consecutive(v, shift, idx, zero)
    ensures idx <= |v|
    ensures var w := Grown(v, shift, idx, zero);
            && |w| == idx / Power2(shift) * Power2(shift) + Power2(shift) + 1 && idx + 1 < |w|
            && (forall i :: idx <= i < |w| ==> w[i] == zero) && w[..idx] == v[..idx]
  {
    LastStep(v, shift, idx, zero);
    hide Consecutive, Power2;
  }

  /** Before a multiple of the step the vector ends one behind it; otherwise the next step is still to come. */
  lemma LastStep<T>(v: seq<T>, shift: nat, idx: nat, zero: T)
    requires Consecutive(v, shift, idx, zero)
    ensures var mask := Power2(shift);
            && idx <= |v| && (forall i :: idx <= i < |v| ==> v[i] == zero)
            && (if idx % mask == 0 then idx / mask * mask == idx else |v| == idx / mask * mask + mask + 1 && idx + 1 < |v|)
  {
    hide Power2;
    if idx > 0 { Steps(idx, Power2(shift)); }
    Steps(idx + 1, Power2(shift));
  }

  /**
   * Used with consecutive indices from 0, the vector keeps every earlier element,
   * and after the call both v[idx] and v[idx + 1] are there and zero.
   */
  lemma ConsecutiveUse<T>(v: seq<T>, shift: nat, idx: nat, x: T, zero: T)
    requires Consecutive(v, shift, idx, zero)
    ensures idx % Power2(shift) == 0 ==> idx <= |v|
    ensures var w := Grown(v, shift, idx, zero);
            && idx + 1 < |w| && w[idx] == zero && w[idx + 1] == zero
            && idx <= |v| && w[..idx] == v[..idx]
            && Consecutive(w[idx := x], shift, idx + 1, zero)
  {
    GrownShape(v, shift, idx, zero);
    hide Grown, Power2;
  }
}
