/** Substring search in octets, and what makes sure that nothing is found too early. */
module MailText {
  import opened Octets

  /** The octets of a printable ASCII string. */
  function Ascii(s: string): (r: Octets)
    ensures |r| == |s| && forall i :: 0 <= i < |s| ==> 32 <= r[i] < 127
    ensures forall i :: 0 <= i < |s| && ' ' <= s[i] <= '~' ==> r[i] == s[i] as int
  {
    seq(|s|, i requires 0 <= i < |s| => if ' ' <= s[i] <= '~' then s[i] as int else 63)
  }

  predicate OccursAt(hay: Octets, ndl: Octets, i: nat) {
    i + |ndl| <= |hay| && hay[i..i + |ndl|] == ndl
  }

  predicate Absent(hay: Octets, ndl: Octets) {
    forall i: nat :: i + |ndl| <= |hay| ==> !OccursAt(hay, ndl, i)
  }

  /** Where ndl first occurs, or -1. */
  function Find(hay: Octets, ndl: Octets): (i: int)
    requires ndl != []
    ensures -1 <= i && (i < 0 <==> Absent(hay, ndl))
    ensures i >= 0 ==> OccursAt(hay, ndl, i) && forall j: nat :: j < i ==> !OccursAt(hay, ndl, j)
  {
    FindFrom(hay, ndl, 0)
  }

  function FindFrom(hay: Octets, ndl: Octets, from: nat): (i: int)
    requires ndl != [] && forall j: nat :: j < from ==> !OccursAt(hay, ndl, j)
    ensures -1 <= i && (i < 0 <==> Absent(hay, ndl))
    ensures i >= 0 ==> OccursAt(hay, ndl, i) && forall j: nat :: j < i ==> !OccursAt(hay, ndl, j)
    decreases |hay| - from
  {
    if from + |ndl| > |hay| then -1
    else if OccursAt(hay, ndl, from) then from
    else FindFrom(hay, ndl, from + 1)
  }

  /** memfind */
  method Memfind(hay: Octets, ndl: Octets) returns (i: int)
    requires ndl != []
    ensures i == Find(hay, ndl)
  {
    i := 0;
    while i + |ndl| <= |hay|
      invariant i >= 0 && forall j: nat :: j < i ==> !OccursAt(hay, ndl, j)
    {
      if hay[i..i + |ndl|] == ndl {
        FirstIsFound(hay, ndl, i);
        return;
      }
      i := i + 1;
    }
    i := -1;
  }

  lemma FirstIsFound(hay: Octets, ndl: Octets, i: nat)
    requires ndl != [] && OccursAt(hay, ndl, i) && forall j: nat :: j < i ==> !OccursAt(hay, ndl, j)
    ensures Find(hay, ndl) == i
  {
    assert !OccursAt(hay, ndl, i) || Find(hay, ndl) <= i;
  }

  // ---- Where nothing is found -----------------------------------------------------------------

  /** An occurrence within a prefix is one of the prefix. */
  lemma OccursInPrefix(a: Octets, rest: Octets, ndl: Octets, i: nat)
    requires i + |ndl| <= |a|
    ensures OccursAt(a + rest, ndl, i) == OccursAt(a, ndl, i)
  {
    assert (a + rest)[i..i + |ndl|] == a[i..i + |ndl|];
  }

  lemma OccursInSuffix(a: Octets, rest: Octets, ndl: Octets, i: nat)
    requires i >= |a|
    ensures OccursAt(a + rest, ndl, i) == OccursAt(rest, ndl, i - |a|)
  {
    if i + |ndl| <= |a + rest| {
      assert (a + rest)[i..i + |ndl|] == rest[i - |a|..i - |a| + |ndl|];
    }
  }

  /** An occurrence does not reach across an octet that ndl does not contain. */
  lemma NotAcross(hay: Octets, ndl: Octets, i: nat, k: nat)
    requires k < |hay| && hay[k] !in ndl && i <= k < i + |ndl|
    ensures !OccursAt(hay, ndl, i)
  {
    if i + |ndl| <= |hay| {
      assert hay[i..i + |ndl|][k - i] == hay[k];
    }
  }

  /** Two parts with such an octet between them. */
  lemma AbsentJoin(a: Octets, c: uint8, b: Octets, ndl: Octets)
    requires Absent(a, ndl) && Absent(b, ndl) && c !in ndl && ndl != []
    ensures Absent(a + [c] + b, ndl)
  {
    var hay := a + [c] + b;
    forall i: nat | i + |ndl| <= |hay| ensures !OccursAt(hay, ndl, i) {
      if i + |ndl| <= |a| {
        assert hay == a + ([c] + b);
        OccursInPrefix(a, [c] + b, ndl, i);
      } else if i <= |a| {
        assert hay[|a|] == c;
        NotAcross(hay, ndl, i, |a|);
      } else {
        OccursInSuffix(a + [c], b, ndl, i);
      }
    }
  }

  lemma AbsentPrefix(a: Octets, b: Octets, ndl: Octets)
    requires Absent(a + b, ndl)
    ensures Absent(a, ndl)
  {
    forall i: nat | i + |ndl| <= |a| ensures !OccursAt(a, ndl, i) {
      OccursInPrefix(a, b, ndl, i);
    }
  }

  /** Something that lacks one of ndl's octets does not contain ndl. */
  lemma AbsentLacking(a: Octets, c: uint8, ndl: Octets)
    requires c in ndl && c !in a
    ensures Absent(a, ndl)
  {
    forall i: nat | i + |ndl| <= |a| ensures !OccursAt(a, ndl, i) {
      var k :| 0 <= k < |ndl| && ndl[k] == c;
      assert a[i + k] != c;
      assert a[i..i + |ndl|][k] == a[i + k];
    }
  }

  /** Behind a text without it that ends in an octet it lacks, ndl is found where it stands. */
  lemma FoundBehind(a: Octets, ndl: Octets, rest: Octets)
    requires ndl != [] && Absent(a, ndl) && (a != [] ==> a[|a| - 1] !in ndl)
    ensures Find(a + ndl + rest, ndl) == |a|
  {
    var hay := a + ndl + rest;
    assert hay[|a|..|a| + |ndl|] == ndl;
    forall j: nat | j < |a| ensures !OccursAt(hay, ndl, j) {
      assert hay == a + (ndl + rest);
      if j + |ndl| <= |a| {
        OccursInPrefix(a, ndl + rest, ndl, j);
      } else {
        NotAcross(hay, ndl, j, |a| - 1);
      }
    }
    FirstIsFound(hay, ndl, |a|);
  }

  /** The same, behind a text that lacks the first octet of ndl. */
  lemma FoundBehindOthers(a: Octets, ndl: Octets, rest: Octets)
    requires ndl != [] && ndl[0] !in a
    ensures Find(a + ndl + rest, ndl) == |a|
  {
    var hay := a + ndl + rest;
    assert hay[|a|..|a| + |ndl|] == ndl;
    forall j: nat | j < |a| ensures !OccursAt(hay, ndl, j) {
      if j + |ndl| <= |hay| {
        assert hay[j..j + |ndl|][0] == hay[j] == a[j];
      }
    }
    FirstIsFound(hay, ndl, |a|);
  }
}
