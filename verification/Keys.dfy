/** The keys of a map in the order a BTreeMap iterates them. */
module Keys {
  import opened Lexicographic

  ghost predicate Ascending(keys: seq<string>) {
    forall i, j :: 0 <= i < j < |keys| ==> TextLess(keys[i], keys[j])
  }

  ghost predicate Lists(keys: seq<string>, s: set<string>) {
    Ascending(keys) && forall k :: k in s <==> k in keys
  }

  /** Inserts a key into an ascending list that does not hold it. */
  function InsertKey(key: string, keys: seq<string>): (r: seq<string>)
    ensures |r| == |keys| + 1
  {
    if keys == [] || TextLess(key, keys[0]) then [key] + keys
    else [keys[0]] + InsertKey(key, keys[1..])
  }

  lemma {:induction false} InsertKeyMembers(key: string, keys: seq<string>)
    ensures forall k :: k in InsertKey(key, keys) <==> k == key || k in keys
  {
    hide TextLess;
    if keys == [] || TextLess(key, keys[0]) {
    } else {
      InsertKeyMembers(key, keys[1..]);
      assert forall k :: k in keys <==> k == keys[0] || k in keys[1..];
    }
  }

  lemma {:induction false} InsertKeyAscends(key: string, keys: seq<string>)
    requires Ascending(keys) && key !in keys
    ensures Ascending(InsertKey(key, keys))
  {
    hide TextLess;
    if keys != [] {
      TextTotal(key, keys[0]);
      if TextLess(key, keys[0]) {
        forall i | 0 < i < |keys|
          ensures TextLess(key, keys[i])
        {
          TextTransitive(key, keys[0], keys[i]);
        }
      } else {
        InsertKeyAscends(key, keys[1..]);
        InsertKeyMembers(key, keys[1..]);
        var rest := InsertKey(key, keys[1..]);
        forall i | 0 <= i < |rest|
          ensures TextLess(keys[0], rest[i])
        {
          assert rest[i] in rest;
        }
      }
    }
  }

  method SortKeys(s: set<string>) returns (keys: seq<string>)
    ensures Lists(keys, s) && keys == KeysOf(s)
  {
    hide TextLess;
    keys := [];
    var todo := s;
    while todo != {}
      invariant todo <= s && Lists(keys, s - todo)
      decreases todo
    {
      var k :| k in todo;
      InsertKeyMembers(k, keys);
      InsertKeyAscends(k, keys);
      keys := InsertKey(k, keys);
      todo := todo - {k};
    }
    ListingUnique(keys, KeysOf(s), s);
  }

  /** An ascending listing is determined by its set. */
  lemma {:induction false} ListingUnique(a: seq<string>, b: seq<string>, s: set<string>)
    requires Lists(a, s) && Lists(b, s)
    ensures a == b
    decreases |a|
  {
    hide TextLess;
    EmptyListing(a, s);
    EmptyListing(b, s);
    if a != [] {
      FirstIsLeast(a, b, s);
      DropFirst(a, s);
      DropFirst(b, s);
      ListingUnique(a[1..], b[1..], s - {a[0]});
      assert a == [a[0]] + a[1..] && b == [b[0]] + b[1..];
    }
  }

  lemma EmptyListing(a: seq<string>, s: set<string>)
    requires Lists(a, s)
    ensures a == [] <==> s == {}
  {
    hide TextLess;
    if a != [] {
      assert a[0] in s;
    }
  }

  lemma FirstIsLeast(a: seq<string>, b: seq<string>, s: set<string>)
    requires Lists(a, s) && Lists(b, s) && a != [] && b != []
    ensures a[0] == b[0]
  {
    hide TextLess;
    assert a[0] in s && b[0] in s;
    var i :| 0 <= i < |b| && b[i] == a[0];
    var j :| 0 <= j < |a| && a[j] == b[0];
    if i != 0 && j != 0 {
      TextTransitive(a[0], b[0], a[0]);
      TextIrreflexive(a[0]);
    }
  }

  lemma DropFirst(a: seq<string>, s: set<string>)
    requires Lists(a, s) && a != []
    ensures Lists(a[1..], s - {a[0]})
  {
    hide TextLess;
    TextIrreflexive(a[0]);
    forall k
      ensures k in s - {a[0]} <==> k in a[1..]
    {
      if k in a[1..] {
        var i :| 0 <= i < |a[1..]| && a[1..][i] == k;
        assert TextLess(a[0], a[i + 1]);
      }
    }
  }

  /** The ascending listing of a set of keys. */
  ghost function KeysOf(s: set<string>): (keys: seq<string>)
    ensures Lists(keys, s)
  {
    ListingExists(s);
    var keys :| Lists(keys, s);
    keys
  }

  lemma {:induction false} ListingExists(s: set<string>)
    ensures exists keys :: Lists(keys, s)
    decreases s
  {
    hide TextLess;
    if s == {} {
      assert Lists([], s);
    } else {
      var k :| k in s;
      ListingExists(s - {k});
      var keys :| Lists(keys, s - {k});
      InsertKeyMembers(k, keys);
      InsertKeyAscends(k, keys);
      assert Lists(InsertKey(k, keys), s);
    }
  }

  lemma AscendingIsDistinct(keys: seq<string>)
    requires Ascending(keys)
    ensures forall i, j :: 0 <= i < j < |keys| ==> keys[i] != keys[j]
  {
    forall i, j | 0 <= i < j < |keys|
      ensures keys[i] != keys[j]
    {
      TextIrreflexive(keys[i]);
    }
  }

  lemma NotYet(keys: seq<string>, s: set<string>, i: nat)
    requires Lists(keys, s) && i < |keys|
    ensures keys[i] !in keys[..i]
  {
    AscendingIsDistinct(keys);
  }

  lemma AllKeys(keys: seq<string>, s: set<string>)
    requires Lists(keys, s)
    ensures (set j | 0 <= j < |keys| :: keys[j]) == s
  {
    hide Ascending;
    forall k | k in s ensures k in set j | 0 <= j < |keys| :: keys[j] {
      assert k in keys;
    }
  }
}
