/** Lexicographic comparison of sequences of natural numbers: how digests, byte
    strings and fixed-width texts are ordered. */
module Lexicographic {

  predicate Less(a: seq<nat>, b: seq<nat>) {
    if b == [] then false
    else if a == [] then true
    else a[0] < b[0] || (a[0] == b[0] && Less(a[1..], b[1..]))
  }

  predicate AtMost(a: seq<nat>, b: seq<nat>) {
    a == b || Less(a, b)
  }

  lemma {:induction false} Irreflexive(a: seq<nat>)
    ensures !Less(a, a)
  {
    if a != [] {
      Irreflexive(a[1..]);
    }
  }

  lemma {:induction false} Transitive(a: seq<nat>, b: seq<nat>, c: seq<nat>)
    requires Less(a, b) && Less(b, c)
    ensures Less(a, c)
  {
    if a != [] && a[0] == b[0] == c[0] {
      Transitive(a[1..], b[1..], c[1..]);
    }
  }

  lemma {:induction false} Total(a: seq<nat>, b: seq<nat>)
    ensures Less(a, b) || a == b || Less(b, a)
  {
    if a != [] && b != [] && a[0] == b[0] {
      Total(a[1..], b[1..]);
      assert a == [a[0]] + a[1..] && b == [b[0]] + b[1..];
    }
  }

  lemma Antisymmetric(a: seq<nat>, b: seq<nat>)
    requires AtMost(a, b) && AtMost(b, a)
    ensures a == b
  {
    if a != b {
      Transitive(a, b, a);
      Irreflexive(a);
    }
  }

  /** Comparing concatenations of equally long parts compares the parts in turn,
      as the derived order on a tuple of fixed-width fields does. */
  lemma {:induction false} Concatenation(a: seq<nat>, b: seq<nat>, s: seq<nat>, t: seq<nat>)
    requires |a| == |b|
    ensures Less(a + s, b + t) <==> Less(a, b) || (a == b && Less(s, t))
    ensures a + s == b + t <==> a == b && s == t
  {
    if a == [] {
      assert a + s == s && b + t == t;
    } else {
      assert (a + s)[1..] == a[1..] + s && (b + t)[1..] == b[1..] + t;
      assert a == [a[0]] + a[1..] && b == [b[0]] + b[1..];
      assert a + s == [a[0]] + (a[1..] + s) && b + t == [b[0]] + (b[1..] + t);
      Concatenation(a[1..], b[1..], s, t);
    }
  }

  /** Two sequences compare at the first place where they differ; a proper prefix
      comes first. */
  lemma {:induction false} LessMeans(a: seq<nat>, b: seq<nat>)
    ensures Less(a, b) <==> exists k: nat :: DiffersAt(a, b, k)
  {
    if Less(a, b) && a != [] {
      if a[0] == b[0] {
        LessMeans(a[1..], b[1..]);
        var k: nat :| DiffersAt(a[1..], b[1..], k);
        assert a == [a[0]] + a[1..] && b == [b[0]] + b[1..];
        assert a[..k + 1] == [a[0]] + a[1..][..k] && b[..k + 1] == [b[0]] + b[1..][..k];
        assert DiffersAt(a, b, k + 1);
      } else {
        assert DiffersAt(a, b, 0);
      }
    } else if Less(a, b) {
      assert DiffersAt(a, b, 0);
    }
    if k: nat :| DiffersAt(a, b, k) {
      if k > 0 {
        assert a[0] == a[..k][0] && b[0] == b[..k][0];
        assert a[1..][..k - 1] == a[..k][1..] && b[1..][..k - 1] == b[..k][1..];
        assert DiffersAt(a[1..], b[1..], k - 1);
        LessMeans(a[1..], b[1..]);
      }
    }
  }

  /** a and b agree before k, where a has ended or has the smaller element. */
  ghost predicate DiffersAt(a: seq<nat>, b: seq<nat>, k: nat) {
    k <= |a| && k < |b| && a[..k] == b[..k] && (k == |a| || a[k] < b[k])
  }

  /** A proper prefix comes first. */
  lemma PrefixComesFirst(a: seq<nat>, b: seq<nat>)
    requires a <= b && a != b
    ensures Less(a, b) && !Less(b, a)
  {
    assert DiffersAt(a, b, |a|);
    LessMeans(a, b);
    if Less(b, a) {
      Transitive(a, b, a);
      Irreflexive(a);
    }
  }

  // ----- text -----

  function Codes(s: string): (codes: seq<nat>)
    ensures |codes| == |s| && forall i :: 0 <= i < |s| ==> codes[i] == s[i] as nat
  {
    seq(|s|, i requires 0 <= i < |s| => s[i] as nat)
  }

  lemma CodesInjective(s: string, t: string)
    requires Codes(s) == Codes(t)
    ensures s == t
  {
    assert |s| == |Codes(s)| == |Codes(t)| == |t|;
    assert forall i :: 0 <= i < |s| ==> s[i] as nat == Codes(s)[i] == Codes(t)[i] == t[i] as nat;
  }

  /** Order of two texts by scalar value, which is also the byte-wise order of
      their UTF-8 forms. */
  predicate TextLess(s: string, t: string) {
    Less(Codes(s), Codes(t))
  }

  /** So do texts. */
  lemma PrefixTextComesFirst(s: string, t: string)
    requires s <= t && s != t
    ensures TextLess(s, t) && !TextLess(t, s)
  {
    assert Codes(t)[..|s|] == Codes(s);
    PrefixComesFirst(Codes(s), Codes(t));
  }

  lemma TextIrreflexive(s: string)
    ensures !TextLess(s, s)
  {
    Irreflexive(Codes(s));
  }

  lemma TextTransitive(a: string, b: string, c: string)
    requires TextLess(a, b) && TextLess(b, c)
    ensures TextLess(a, c)
  {
    Transitive(Codes(a), Codes(b), Codes(c));
  }

  lemma TextTotal(a: string, b: string)
    ensures TextLess(a, b) || a == b || TextLess(b, a)
  {
    Total(Codes(a), Codes(b));
    if Codes(a) == Codes(b) {
      CodesInjective(a, b);
    }
  }
}
