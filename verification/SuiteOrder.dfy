/** regress-html.c: the order of the suites in the table. */
module SuiteOrder {

  datatype Kind = Regress | NonRegress | Informative

  datatype Suite = Suite(name: string, fail: nat, kind: Kind)

  /** strcmp(a, b) <= 0 */
  predicate StrLe(a: string, b: string) {
    a == "" || (b != "" && (a[0] < b[0] || (a[0] == b[0] && StrLe(a[1..], b[1..]))))
  }

  /** suite_cmp(a, b) <= 0: more failures first, then by name. */
  predicate SuiteLe(a: Suite, b: Suite) {
    a.fail > b.fail || (a.fail == b.fail && StrLe(a.name, b.name))
  }

  /** Failing suites come first, those that are not about regress last. */
  function Class(s: Suite): nat {
    if s.fail > 0 then 0 else if s.kind != Regress then 2 else 1
  }

  predicate TableLe(a: Suite, b: Suite) {
    Class(a) < Class(b) || (Class(a) == Class(b) && SuiteLe(a, b))
  }

  predicate Sorted(s: seq<Suite>) {
    forall i, j :: 0 <= i < j < |s| ==> SuiteLe(s[i], s[j])
  }

  predicate InOrder(s: seq<Suite>) {
    forall i, j :: 0 <= i < j < |s| ==> TableLe(s[i], s[j])
  }

  /** The texts agree up to position i, and there the first one has the smaller character. */
  predicate Differs(a: string, b: string, i: nat) {
    i < |a| && i < |b| && a[..i] == b[..i] && a[i] < b[i]
  }

  lemma FirstDiffers(a: string, b: string)
    requires a != "" && b != ""
    ensures forall i: nat :: Differs(a, b, i) ==> i == 0 || a[0] == b[0]
  {
    forall i: nat | Differs(a, b, i) ensures i == 0 || a[0] == b[0] {
      if i > 0 {
        assert a[..i][0] == b[..i][0];
      }
    }
  }

  /** Texts are compared at the first character in which they differ; a text that goes on comes later. */
  lemma {:induction false} StrLeIff(a: string, b: string)
    ensures StrLe(a, b) <==> a <= b || exists i: nat :: Differs(a, b, i)
  {
    if a == "" {
    } else if b == "" {
    } else if a[0] == b[0] {
      StrLeIff(a[1..], b[1..]);
      assert a == [a[0]] + a[1..] && b == [b[0]] + b[1..];
      if i: nat :| Differs(a[1..], b[1..], i) {
        assert a[..i + 1] == [a[0]] + a[1..][..i] && b[..i + 1] == [b[0]] + b[1..][..i];
        assert Differs(a, b, i + 1);
      }
      if i: nat :| Differs(a, b, i) {
        assert a[1..][..i - 1] == a[..i][1..] && b[1..][..i - 1] == b[..i][1..];
        assert Differs(a[1..], b[1..], i - 1);
      }
    } else {
      if a[0] < b[0] {
        assert Differs(a, b, 0);
      }
      FirstDiffers(a, b);
    }
  }

  /**
   What the order means: failing suites come first, those with more failures before
   those with fewer; then those that are about regress, then the others; and where
   none of this decides, the names do.
   */
  predicate Before(a: Suite, b: Suite) {
    if a.fail != b.fail then a.fail > b.fail
    else if a.fail == 0 && (a.kind == Regress) != (b.kind == Regress) then a.kind == Regress
    else StrLe(a.name, b.name)
  }

  lemma TableLeIs(a: Suite, b: Suite)
    ensures TableLe(a, b) <==> Before(a, b)
  {}

  lemma {:induction false} StrTotal(a: string, b: string)
    ensures StrLe(a, b) || StrLe(b, a)
  {
    if a != "" && b != "" && a[0] == b[0] {
      StrTotal(a[1..], b[1..]);
    }
  }

  lemma {:induction false} StrTransitive(a: string, b: string, c: string)
    requires StrLe(a, b) && StrLe(b, c)
    ensures StrLe(a, c)
  {
    if a != "" && a[0] == b[0] == c[0] {
      StrTransitive(a[1..], b[1..], c[1..]);
    }
  }

  lemma SuiteTransitive(a: Suite, b: Suite, c: Suite)
    requires SuiteLe(a, b) && SuiteLe(b, c)
    ensures SuiteLe(a, c)
  {
    if a.fail == b.fail == c.fail {
      StrTransitive(a.name, b.name, c.name);
    }
  }

  function Insert(x: Suite, s: seq<Suite>): seq<Suite> {
    if s == [] || SuiteLe(x, s[0]) then [x] + s else [s[0]] + Insert(x, s[1..])
  }

  lemma {:induction false} InsertSorts(x: Suite, s: seq<Suite>)
    requires Sorted(s)
    ensures Sorted(Insert(x, s)) && multiset(Insert(x, s)) == multiset(s) + multiset{x}
    ensures Insert(x, s)[0] == x || (s != [] && Insert(x, s)[0] == s[0])
  {
    if s == [] {
    } else if SuiteLe(x, s[0]) {
      forall j | 0 <= j < |s| ensures SuiteLe(x, s[j]) {
        if j > 0 {
          SuiteTransitive(x, s[0], s[j]);
        }
      }
    } else {
      StrTotal(x.name, s[0].name);
      InsertSorts(x, s[1..]);
      var t := Insert(x, s[1..]);
      assert s == [s[0]] + s[1..];
      forall j | 0 <= j < |t| ensures SuiteLe(s[0], t[j]) {
        if j > 0 {
          SuiteTransitive(s[0], t[0], t[j]);
        }
      }
    }
  }

  /** Stands for qsort: any order of suites that compare equal would do. */
  method Sort(s: seq<Suite>) returns (r: seq<Suite>)
    ensures Sorted(r) && multiset(r) == multiset(s)
  {
    r := [];
    for i := 0 to |s|
      invariant Sorted(r) && multiset(r) == multiset(s[..i])
    {
      InsertSorts(s[i], r);
      assert s[..i + 1] == s[..i] + [s[i]];
      r := Insert(s[i], r);
    }
    assert s[..|s|] == s;
  }

  predicate AllOf(s: seq<Suite>, class_: nat) {
    forall i :: 0 <= i < |s| ==> Class(s[i]) == class_
  }

  lemma SameClass(s: seq<Suite>, r: seq<Suite>, class_: nat)
    requires AllOf(s, class_) && multiset(r) == multiset(s)
    ensures AllOf(r, class_)
  {
    forall i | 0 <= i < |r| ensures Class(r[i]) == class_ {
      assert r[i] in multiset(r) && r[i] in multiset(s);
    }
  }

  lemma Joined(a: seq<Suite>, b: seq<Suite>, c: seq<Suite>)
    requires Sorted(a) && Sorted(b) && Sorted(c) && AllOf(a, 0) && AllOf(b, 1) && AllOf(c, 2)
    ensures InOrder(a + b + c)
  {
    var s := a + b + c;
    forall i, j | 0 <= i < j < |s| ensures TableLe(s[i], s[j]) {
      if i >= |a| + |b| {
        assert SuiteLe(c[i - |a| - |b|], c[j - |a| - |b|]);
      } else if i >= |a| {
        assert j < |a| + |b| ==> SuiteLe(b[i - |a|], b[j - |a|]);
      }
    }
  }

  /** All suites, each once: the failing ones, those that pass, and those that are not about regress. */
  method SortSuites(suites: seq<Suite>) returns (r: seq<Suite>)
    ensures multiset(r) == multiset(suites) && InOrder(r)
    ensures forall i, j :: 0 <= i < j < |r| ==> Before(r[i], r[j])
  {
    var all, pass, nonregress := Divide(suites);
    all := SortClass(all, 0);
    pass := SortClass(pass, 1);
    nonregress := SortClass(nonregress, 2);
    Joined(all, pass, nonregress);
    r := all + pass + nonregress;
    forall i, j | 0 <= i < j < |r| ensures Before(r[i], r[j]) {
      TableLeIs(r[i], r[j]);
    }
  }

  method SortClass(s: seq<Suite>, ghost class_: nat) returns (r: seq<Suite>)
    requires AllOf(s, class_)
    ensures Sorted(r) && multiset(r) == multiset(s) && AllOf(r, class_)
  {
    r := Sort(s);
    SameClass(s, r, class_);
  }

  lemma OneMore(a: seq<Suite>, b: seq<Suite>, c: seq<Suite>, seen: seq<Suite>, x: Suite)
    requires multiset(a) + multiset(b) + multiset(c) == multiset(seen)
    ensures multiset(a + [x]) + multiset(b) + multiset(c) == multiset(seen + [x])
    ensures multiset(a) + multiset(b + [x]) + multiset(c) == multiset(seen + [x])
    ensures multiset(a) + multiset(b) + multiset(c + [x]) == multiset(seen + [x])
  {
    assert multiset(seen + [x]) == multiset(seen) + multiset{x};
    assert multiset(a + [x]) == multiset(a) + multiset{x};
    assert multiset(b + [x]) == multiset(b) + multiset{x};
    assert multiset(c + [x]) == multiset(c) + multiset{x};
  }

  lemma AllOfMore(s: seq<Suite>, class_: nat, x: Suite)
    requires AllOf(s, class_) && Class(x) == class_
    ensures AllOf(s + [x], class_)
  {}

  method Divide(suites: seq<Suite>) returns (all: seq<Suite>, pass: seq<Suite>, nonregress: seq<Suite>)
    ensures multiset(all) + multiset(pass) + multiset(nonregress) == multiset(suites)
    ensures AllOf(all, 0) && AllOf(pass, 1) && AllOf(nonregress, 2)
  {
    all, pass, nonregress := [], [], [];
    for i := 0 to |suites|
      invariant multiset(all) + multiset(pass) + multiset(nonregress) == multiset(suites[..i])
      invariant AllOf(all, 0) && AllOf(pass, 1) && AllOf(nonregress, 2)
    {
      all, pass, nonregress := Place(suites[i], all, pass, nonregress, suites[..i]);
      assert suites[..i + 1] == suites[..i] + [suites[i]];
    }
    assert suites[..|suites|] == suites;
  }

  /** Adds a suite to the list it belongs to. */
  method Place(suite: Suite, all0: seq<Suite>, pass0: seq<Suite>, nonregress0: seq<Suite>, ghost seen: seq<Suite>)
    returns (all: seq<Suite>, pass: seq<Suite>, nonregress: seq<Suite>)
    requires multiset(all0) + multiset(pass0) + multiset(nonregress0) == multiset(seen)
    requires AllOf(all0, 0) && AllOf(pass0, 1) && AllOf(nonregress0, 2)
    ensures multiset(all) + multiset(pass) + multiset(nonregress) == multiset(seen + [suite])
    ensures AllOf(all, 0) && AllOf(pass, 1) && AllOf(nonregress, 2)
  {
    hide AllOf;
    all, pass, nonregress := all0, pass0, nonregress0;
    OneMore(all, pass, nonregress, seen, suite);
    if suite.fail > 0 {
      AllOfMore(all, 0, suite);
      all := all + [suite];
    } else if suite.kind == Informative || suite.kind == NonRegress {
      AllOfMore(nonregress, 2, suite);
      nonregress := nonregress + [suite];
    } else {
      AllOfMore(pass, 1, suite);
      pass := pass + [suite];
    }
  }
}
