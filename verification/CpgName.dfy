/** The order of group names in the closed process group service. */
module CpgName {

  const CPG_MAX_NAME_LENGTH: nat := 128

  /** A length and a value buffer, of which the first `length` bytes are used. */
  datatype Name = Name(length: nat, value: seq<bv8>) {
    predicate Valid() {
      |value| == CPG_MAX_NAME_LENGTH && length <= CPG_MAX_NAME_LENGTH
    }

    function Used(): seq<bv8>
      requires Valid()
    {
      value[..length]
    }
  }

  /** The difference of the first bytes that differ, as unsigned values. C promises its sign only, and
      only the sign is used below. */
  function MemCmp(a: seq<bv8>, b: seq<bv8>): int
    requires |a| == |b|
  {
    if a == [] then 0
    else if a[0] != b[0] then a[0] as int - b[0] as int
    else MemCmp(a[1..], b[1..])
  }

  /** `mar_name_compare` */
  function Compare(g1: Name, g2: Name): int
    requires g1.Valid() && g2.Valid()
  {
    if g1.length == g2.length then MemCmp(g1.value[..g1.length], g2.value[..g1.length])
    else g1.length - g2.length
  }

  /** The first byte that differs decides. */
  ghost predicate FirstDifference(a: seq<bv8>, b: seq<bv8>, k: nat) {
    k < |a| == |b| && a[..k] == b[..k] && a[k] as int < b[k] as int
  }

  /** Shorter first; among names of the same length, in the order of their bytes. */
  ghost predicate Shortlex(a: seq<bv8>, b: seq<bv8>) {
    |a| < |b| || exists k: nat :: FirstDifference(a, b, k)
  }

  lemma DifferenceBehindEqual(a: seq<bv8>, b: seq<bv8>, k: nat)
    requires |a| == |b| > 0 && a[0] == b[0]
    ensures FirstDifference(a[1..], b[1..], k) <==> FirstDifference(a, b, k + 1)
    ensures !FirstDifference(a, b, 0)
  {
  }

  lemma DifferenceAtFront(a: seq<bv8>, b: seq<bv8>, k: nat)
    requires |a| == |b| > 0 && a[0] != b[0]
    ensures FirstDifference(a, b, k) <==> k == 0 && a[0] as int < b[0] as int
  {
  }

  lemma {:induction false} MemCmpNegative(a: seq<bv8>, b: seq<bv8>)
    requires |a| == |b|
    ensures MemCmp(a, b) < 0 <==> exists k: nat :: FirstDifference(a, b, k)
  {
    if a == [] {
    } else if a[0] == b[0] {
      MemCmpNegative(a[1..], b[1..]);
      if k: nat :| FirstDifference(a[1..], b[1..], k) {
        DifferenceBehindEqual(a, b, k);
      }
      if k: nat :| FirstDifference(a, b, k) {
        DifferenceBehindEqual(a, b, if k > 0 then k - 1 else 0);
      }
    } else {
      DifferenceAtFront(a, b, 0);
      if k: nat :| FirstDifference(a, b, k) {
        DifferenceAtFront(a, b, k);
      }
    }
  }

  lemma {:induction false} MemCmpSign(a: seq<bv8>, b: seq<bv8>)
    requires |a| == |b|
    ensures MemCmp(a, b) == 0 <==> a == b
    ensures MemCmp(a, b) < 0 <==> MemCmp(b, a) > 0
  {
    if a != [] {
      MemCmpSign(a[1..], b[1..]);
      assert a == [a[0]] + a[1..] && b == [b[0]] + b[1..];
    }
  }

  /** The comparison is the shortlex order of the used bytes; whatever follows them in the buffer
      plays no part, and its sign is reversed when the names are exchanged. */
  lemma CompareIsShortlex(g1: Name, g2: Name)
    requires g1.Valid() && g2.Valid()
    ensures Compare(g1, g2) < 0 <==> Shortlex(g1.Used(), g2.Used())
    ensures Compare(g1, g2) == 0 <==> g1.Used() == g2.Used()
    ensures Compare(g1, g2) < 0 <==> Compare(g2, g1) > 0
  {
    if g1.length == g2.length {
      MemCmpNegative(g1.Used(), g2.Used());
      MemCmpSign(g1.Used(), g2.Used());
    }
  }

  lemma FirstDifferenceTransitive(a: seq<bv8>, b: seq<bv8>, c: seq<bv8>, j: nat, k: nat)
    requires FirstDifference(a, b, j) && FirstDifference(b, c, k)
    ensures FirstDifference(a, c, if j < k then j else k)
  {
  }

  lemma CompareTransitive(g1: Name, g2: Name, g3: Name)
    requires g1.Valid() && g2.Valid() && g3.Valid()
    requires Compare(g1, g2) <= 0 && Compare(g2, g3) <= 0
    ensures Compare(g1, g3) <= 0
    ensures Compare(g1, g3) == 0 <==> Compare(g1, g2) == 0 && Compare(g2, g3) == 0
  {
    CompareIsShortlex(g1, g2);
    CompareIsShortlex(g2, g3);
    CompareIsShortlex(g1, g3);
    var a, b, c := g1.Used(), g2.Used(), g3.Used();
    if j: nat, k: nat :| FirstDifference(a, b, j) && FirstDifference(b, c, k) {
      FirstDifferenceTransitive(a, b, c, j, k);
    }
  }
}
