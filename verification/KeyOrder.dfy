/** The order in which `std::map<std::string, std::string>` keeps its keys. */
module KeyOrders {
  import opened Bytes

  /** `std::string::operator<`: byte by byte, a proper prefix first. */
  predicate Less(a: bytes, b: bytes) {
    b != [] && (a == [] || a[0] < b[0] || (a[0] == b[0] && Less(a[1..], b[1..])))
  }

  /** At the first place where they differ, a has the smaller byte or has ended. */
  ghost predicate Precedes(a: bytes, b: bytes) {
    exists i :: 0 <= i <= |a| && i < |b| && a[..i] == b[..i] && (i == |a| || a[i] < b[i])
  }

  lemma PrecedesStep(a: bytes, b: bytes)
    requires a != [] && b != []
    ensures Precedes(a, b) <==> a[0] < b[0] || (a[0] == b[0] && Precedes(a[1..], b[1..]))
  {
    if Precedes(a, b) {
      var i :| 0 <= i <= |a| && i < |b| && a[..i] == b[..i] && (i == |a| || a[i] < b[i]);
      if i > 0 {
        assert a[0] == a[..i][0] == b[..i][0] == b[0];
        assert a[1..][..i - 1] == a[..i][1..] && b[1..][..i - 1] == b[..i][1..];
      }
    }
    if a[0] == b[0] && Precedes(a[1..], b[1..]) {
      var c, d := a[1..], b[1..];
      var i :| 0 <= i <= |c| && i < |d| && c[..i] == d[..i] && (i == |c| || c[i] < d[i]);
      assert a[..i + 1] == [a[0]] + c[..i] && b[..i + 1] == [b[0]] + d[..i];
      assert a[..i + 1] == b[..i + 1];
    }
    assert a[..0] == b[..0];
  }

  lemma {:induction false} LessExactly(a: bytes, b: bytes)
    ensures Less(a, b) <==> Precedes(a, b)
  {
    if a != [] && b != [] {
      hide Precedes;
      PrecedesStep(a, b);
      LessExactly(a[1..], b[1..]);
    } else if b != [] {
      assert a[..0] == b[..0];
    }
  }

  lemma {:induction false} LessTotal(a: bytes, b: bytes)
    ensures a == b || Less(a, b) || Less(b, a)
  {
    if a != [] && b != [] && a[0] == b[0] {
      LessTotal(a[1..], b[1..]);
      assert a == [a[0]] + a[1..] && b == [b[0]] + b[1..];
    }
  }

  lemma {:induction false} LessTransitive(a: bytes, b: bytes, c: bytes)
    requires Less(a, b) && Less(b, c)
    ensures Less(a, c)
  {
    if a != [] && a[0] == b[0] == c[0] {
      LessTransitive(a[1..], b[1..], c[1..]);
    }
  }

  lemma {:induction false} LessIrreflexive(a: bytes)
    ensures !Less(a, a)
  {
    if a != [] {
      LessIrreflexive(a[1..]);
    }
  }

  predicate IsLeast(k: bytes, ks: set<bytes>) {
    k in ks && forall x :: x in ks ==> x == k || Less(k, x)
  }

  lemma {:induction false} LeastExists(ks: set<bytes>)
    requires ks != {}
    ensures exists k :: IsLeast(k, ks)
  {
    var x :| x in ks;
    if ks == {x} {
      assert IsLeast(x, ks);
    } else {
      var rest := ks - {x};
      LeastExists(rest);
      var y :| IsLeast(y, rest);
      LessTotal(x, y);
      if Less(y, x) {
        assert IsLeast(y, ks);
      } else {
        forall z | z in ks
          ensures z == x || Less(x, z)
        {
          if z != x && z != y {
            LessTransitive(x, y, z);
          }
        }
        assert IsLeast(x, ks);
      }
    }
  }

  lemma LeastUnique(a: bytes, b: bytes, ks: set<bytes>)
    requires IsLeast(a, ks) && IsLeast(b, ks)
    ensures a == b
  {
    if a != b {
      LessTransitive(a, b, a);
      LessIrreflexive(a);
    }
  }

  /** The keys in the order an iterator from begin() to end() meets them. */
  ghost function KeyOrder(ks: set<bytes>): (r: seq<bytes>) {
    if ks == {} then []
    else
      LeastExists(ks);
      var k :| IsLeast(k, ks);
      [k] + KeyOrder(ks - {k})
  }

  lemma KeyOrderEmpty()
    ensures KeyOrder({}) == []
  {
  }

  ghost predicate Ascending(ks: seq<bytes>) {
    forall i, j :: 0 <= i < j < |ks| ==> Less(ks[i], ks[j])
  }

  /** The order lists exactly the keys, strictly ascending. */
  lemma {:induction false} KeyOrderAscends(ks: set<bytes>)
    ensures forall k :: k in KeyOrder(ks) <==> k in ks
    ensures Ascending(KeyOrder(ks))
  {
    if ks != {} {
      var order := KeyOrder(ks);
      assert order[0] in ks && order == [order[0]] + KeyOrder(ks - {order[0]}) && IsLeast(order[0], ks) by {
        LeastExists(ks);
      }
      KeyOrderAscends(ks - {order[0]});
      assert forall i :: 0 < i < |order| ==> order[i] == KeyOrder(ks - {order[0]})[i - 1];
    }
  }

  /** Taking the least key off is taking the first of the order off. */
  lemma KeyOrderStep(ks: set<bytes>, k: bytes)
    requires IsLeast(k, ks)
    ensures KeyOrder(ks) == [k] + KeyOrder(ks - {k})
  {
    var order := KeyOrder(ks);
    assert IsLeast(order[0], ks) && order == [order[0]] + KeyOrder(ks - {order[0]}) by {
      LeastExists(ks);
    }
    LeastUnique(k, order[0], ks);
  }

  /** There is one strictly ascending way to list the keys. */
  lemma {:induction false} AscendingIsKeyOrder(ks: seq<bytes>, keys: set<bytes>)
    requires Ascending(ks) && forall k :: k in ks <==> k in keys
    ensures KeyOrder(keys) == ks
    decreases |ks|
  {
    if ks == [] {
      assert keys == {};
      KeyOrderEmpty();
    } else {
      var k, rest := ks[0], ks[1..];
      assert ks == [k] + rest;
      assert IsLeast(k, keys);
      forall x
        ensures x in rest <==> x in keys - {k}
      {
        LessIrreflexive(x);
      }
      AscendingIsKeyOrder(rest, keys - {k});
      KeyOrderStep(keys, k);
    }
  }
}
