/** The byte-wise order of std::string and of the keys of std::map. */
module LexOrder {
  import opened Bytes

  /** operator<. */
  predicate Lt(a: Bytes, b: Bytes) {
    if a == [] then b != []
    else b != [] && (a[0] < b[0] || (a[0] == b[0] && Lt(a[1..], b[1..])))
  }

  predicate Le(a: Bytes, b: Bytes) { a == b || Lt(a, b) }

  predicate IsPrefix(p: Bytes, s: Bytes) { |p| <= |s| && s[..|p|] == p }

  lemma {:induction false} Trichotomy(a: Bytes, b: Bytes)
    ensures Lt(a, b) || a == b || Lt(b, a)
    ensures !(Lt(a, b) && Lt(b, a)) && !Lt(a, a)
  {
    if a != [] {
      Trichotomy(a[1..], a[1..]);
      if b != [] {
        Trichotomy(a[1..], b[1..]);
        if a[0] == b[0] && a[1..] == b[1..] { assert a == [a[0]] + a[1..] == b; }
      }
    }
  }

  lemma {:induction false} Transitive(a: Bytes, b: Bytes, c: Bytes)
    requires Lt(a, b) && Lt(b, c)
    ensures Lt(a, c)
  {
    if a != [] && b != [] && c != [] && a[0] == b[0] == c[0] { Transitive(a[1..], b[1..], c[1..]); }
  }

  /** Plainly: the strings agree up to some place, where the first one ends or has the smaller byte. */
  lemma {:induction false} FirstDifference(a: Bytes, b: Bytes)
    ensures Lt(a, b) <==> exists i: nat {:trigger a[..i]} :: i <= |a| && i < |b| && a[..i] == b[..i] && (i == |a| || a[i] < b[i])
  {
    if a == [] {
      if b != [] { assert a[..0] == b[..0] == []; }
    } else if b != [] {
      var x, y := a[1..], b[1..];
      FirstDifference(x, y);
      if Lt(a, b) {
        if a[0] < b[0] {
          assert a[..0] == b[..0] == [];
        } else {
          var i: nat :| i <= |x| && i < |y| && x[..i] == y[..i] && (i == |x| || x[i] < y[i]);
          assert a[..i + 1] == [a[0]] + x[..i] && b[..i + 1] == [b[0]] + y[..i];
        }
      }
      if i: nat :| i <= |a| && i < |b| && a[..i] == b[..i] && (i == |a| || a[i] < b[i]) {
        if i > 0 {
          assert a[..i][0] == b[..i][0] && x[..i - 1] == a[..i][1..] == b[..i][1..] == y[..i - 1];
        }
      }
    }
  }

  /** A common prefix does not matter. */
  lemma {:induction false} CommonPrefix(p: Bytes, a: Bytes, b: Bytes)
    ensures Lt(p + a, p + b) <==> Lt(a, b)
  {
    if p == [] {
      assert p + a == a && p + b == b;
    } else {
      assert (p + a)[1..] == p[1..] + a && (p + b)[1..] == p[1..] + b;
      CommonPrefix(p[1..], a, b);
    }
  }

  lemma PrefixIsSmaller(p: Bytes, x: Bytes)
    ensures x != [] ==> Lt(p, p + x)
    ensures Le(p, p + x)
  {
    CommonPrefix(p, [], x);
    assert p + [] == p;
  }

  lemma PrefixStep(a: Bytes, b: Bytes)
    requires a != [] && b != []
    ensures IsPrefix(a, b) <==> a[0] == b[0] && IsPrefix(a[1..], b[1..])
  {
    if |a| <= |b| {
      assert b[..|a|] == [b[0]] + b[1..][..|a| - 1];
      assert a == [a[0]] + a[1..];
    }
  }

  /** Once two strings differ inside both, whatever follows does not matter. */
  lemma {:induction false} Diverged(a: Bytes, b: Bytes, x: Bytes)
    requires Lt(a, b) && !IsPrefix(a, b)
    ensures Lt(a + x, b)
  {
    assert b[..0] == [];
    if a != [] {
      assert (a + x)[0] == a[0] && (a + x)[1..] == a[1..] + x;
      PrefixStep(a, b);
      if a[0] == b[0] { Diverged(a[1..], b[1..], x); }
    }
  }

  lemma FirstByteDecides(a: Bytes, b: Bytes)
    requires a != [] && b != [] && a[0] != b[0]
    ensures Lt(a, b) <==> a[0] < b[0]
  {}
}
