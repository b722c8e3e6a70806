// Bit vectors, lowest bit first.
module BitVectors {

  type Bits = seq<bool>

  function BitAt(v: Bits, i: int): bool {
    0 <= i < |v| && v[i]
  }

  // Extension with zeros, or with the sign bit; a longer vector is cut off.
  function Extend(v: Bits, width: nat, signed: bool): (r: Bits)
    ensures |r| == width
  {
    seq(width, i requires 0 <= i < width => if i < |v| then v[i] else signed && v != [] && v[|v| - 1])
  }

  function Ones(n: nat): (r: Bits)
    ensures |r| == n && forall i | 0 <= i < n :: r[i]
  {
    seq(n, i => true)
  }

  function MaxNat(a: nat, b: nat): nat {
    if a < b then b else a
  }
}
