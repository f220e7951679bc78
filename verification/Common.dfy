/** Small vocabulary shared by the models: options, and totals over maps and sequences. */
module Common {

  datatype Option<+T> = None | Some(value: T)

  function Self(n: nat): nat { n }

  /** The sum of `f` over the values of a map. */
  ghost function MapTotal<K, V>(m: map<K, V>, f: V -> nat): nat
  {
    if m == map[] then 0
    else
      var k :| k in m;
      f(m[k]) + MapTotal(m - {k}, f)
  }

  /** Any key may be split off, not just the one the definition happened to pick. */
  lemma {:induction false} MapTotalSplit<K, V>(m: map<K, V>, f: V -> nat, k: K)
    requires k in m
    ensures MapTotal(m, f) == f(m[k]) + MapTotal(m - {k}, f)
    decreases |m|
  {
    var j :| j in m && MapTotal(m, f) == f(m[j]) + MapTotal(m - {j}, f);
    if j != k {
      MapTotalSplit(m - {j}, f, k);
      MapTotalSplit(m - {k}, f, j);
      assert m - {j} - {k} == m - {k} - {j};
    }
  }

  lemma MapTotalInsert<K, V>(m: map<K, V>, f: V -> nat, k: K, v: V)
    requires k !in m
    ensures MapTotal(m[k := v], f) == MapTotal(m, f) + f(v)
  {
    MapTotalSplit(m[k := v], f, k);
    assert m[k := v] - {k} == m;
  }

  lemma MapTotalUpdate<K, V>(m: map<K, V>, f: V -> nat, k: K, v: V)
    requires k in m
    ensures MapTotal(m[k := v], f) + f(m[k]) == MapTotal(m, f) + f(v)
  {
    MapTotalSplit(m, f, k);
    MapTotalSplit(m[k := v], f, k);
    assert m[k := v] - {k} == m - {k};
  }

  /** The sum of `f` over a sequence. */
  function SeqTotal<T>(s: seq<T>, f: T -> nat): nat
  {
    if s == [] then 0 else f(s[0]) + SeqTotal(s[1..], f)
  }

  lemma {:induction false} SeqTotalConcat<T>(s: seq<T>, t: seq<T>, f: T -> nat)
    ensures SeqTotal(s + t, f) == SeqTotal(s, f) + SeqTotal(t, f)
  {
    if s == [] {
      assert s + t == t;
    } else {
      assert (s + t)[1..] == s[1..] + t;
      SeqTotalConcat(s[1..], t, f);
    }
  }

  lemma SeqTotalAppend<T>(s: seq<T>, x: T, f: T -> nat)
    ensures SeqTotal(s + [x], f) == SeqTotal(s, f) + f(x)
  {
    SeqTotalConcat(s, [x], f);
    assert [x][1..] == [];
  }

  /** A total does not depend on the order of the elements. */
  lemma {:induction false} SeqTotalPermutation<T>(s: seq<T>, t: seq<T>, f: T -> nat)
    requires multiset(s) == multiset(t)
    ensures SeqTotal(s, f) == SeqTotal(t, f)
  {
    if s == [] {
      assert |t| == |multiset(t)| == 0;
    } else {
      var k := FirstOccurs(s, t);
      SameWithout(s, t, k);
      SeqTotalPermutation(s[1..], t[..k] + t[k + 1..], f);
      SeqTotalWithout(t, k, f);
    }
  }

  lemma FirstOccurs<T>(s: seq<T>, t: seq<T>) returns (k: nat)
    requires s != [] && multiset(s) == multiset(t)
    ensures k < |t| && t[k] == s[0]
  {
    assert s[0] in multiset(t);
    k :| 0 <= k < |t| && t[k] == s[0];
  }

  lemma SameWithout<T>(s: seq<T>, t: seq<T>, k: nat)
    requires s != [] && multiset(s) == multiset(t) && k < |t| && t[k] == s[0]
    ensures multiset(s[1..]) == multiset(t[..k] + t[k + 1..])
  {
    WithoutFirst(s);
    Without(t, k);
  }

  lemma WithoutFirst<T>(s: seq<T>)
    requires s != []
    ensures multiset(s[1..]) == multiset(s) - multiset{s[0]}
  {
    assert s == [s[0]] + s[1..];
  }

  lemma Without<T>(s: seq<T>, k: nat)
    requires k < |s|
    ensures multiset(s[..k] + s[k + 1..]) == multiset(s) - multiset{s[k]}
  {
    assert s == s[..k] + [s[k]] + s[k + 1..];
  }

  lemma SeqTotalWithout<T>(s: seq<T>, k: nat, f: T -> nat)
    requires k < |s|
    ensures SeqTotal(s, f) == f(s[k]) + SeqTotal(s[..k] + s[k + 1..], f)
  {
    assert s == s[..k] + s[k..];
    SeqTotalConcat(s[..k], s[k..], f);
    SeqTotalConcat(s[..k], s[k + 1..], f);
    assert s[k..][1..] == s[k + 1..];
  }

  /** One element bounds the total from below. */
  lemma {:induction false} SeqTotalAtLeast<T>(s: seq<T>, f: T -> nat, k: nat)
    requires k < |s|
    ensures SeqTotal(s, f) >= f(s[k])
  {
    if k > 0 {
      SeqTotalAtLeast(s[1..], f, k - 1);
    }
  }
}
