/** Types shared by every part of the model. */
module Common {

  /** An optional value: a protobuf field that may be absent, a lookup that may miss. */
  datatype Option<+T> = None | Some(value: T)

  type Byte = b: int | 0 <= b < 256
  type Bytes = seq<Byte>

  const TWO_32: nat := 0x1_0000_0000
  const TWO_64: nat := 0x1_0000_0000_0000_0000

  type Uint64 = n: int | 0 <= n < TWO_64

  /** A node id, endorsement type or key id in its 16-byte wire form. */
  type Uuid = b: Bytes | |b| == 16 witness seq(16, i => 0)

  lemma Regroup<T>(r: seq<T>, s: seq<T>, t: seq<T>)
    ensures (r + s) + t == r + (s + t)
  {
  }

  // ---------------------------------------------------------------- lists without repetition

  predicate Distinct(s: seq<Uuid>) {
    s != [] ==> s[0] !in s[1..] && Distinct(s[1..])
  }

  lemma {:induction false} DistinctMeans(s: seq<Uuid>)
    ensures Distinct(s) <==> forall i, j | 0 <= i < j < |s| :: s[i] != s[j]
  {
    if s != [] {
      DistinctMeans(s[1..]);
      assert forall k | 0 < k < |s| :: s[k] == s[1..][k - 1];
    }
  }

  lemma {:induction false} DistinctPrefix(s: seq<Uuid>, n: nat)
    requires Distinct(s) && n <= |s|
    ensures Distinct(s[..n]) && (n < |s| ==> s[n] !in s[..n])
  {
    if 0 < n {
      DistinctPrefix(s[1..], n - 1);
      assert s[..n][1..] == s[1..][..n - 1] && s[..n] == [s[0]] + s[1..][..n - 1];
      if n < |s| { assert s[n] == s[1..][n - 1]; }
    }
  }

  lemma DistinctSnoc(s: seq<Uuid>, x: Uuid)
    requires Distinct(s) && x !in s
    ensures Distinct(s + [x])
  {
    DistinctMeans(s);
    DistinctMeans(s + [x]);
  }
}
