/** Binomial coefficients and what they count: the d-element subsets of a finite set. */
module Subsets {

  function Choose(n: nat, k: nat): nat {
    if k == 0 then 1 else if n == 0 then 0 else Choose(n - 1, k - 1) + Choose(n - 1, k)
  }

  /** Neighbours in a row of Pascal's triangle. */
  lemma {:induction false} ChooseStep(n: nat, k: nat)
    ensures (k + 1) * Choose(n, k + 1) == (n - k) * Choose(n, k)
  {
    if n > 0 {
      ChooseStep(n - 1, k);
      if k > 0 {
        ChooseStep(n - 1, k - 1);
        var a, b, c := Choose(n - 1, k - 1), Choose(n - 1, k), Choose(n - 1, k + 1);
        assert Choose(n, k) == a + b && Choose(n, k + 1) == b + c;
        hide Choose;
        PascalStep(n, k, a, b, c);
      }
    }
  }

  lemma PascalStep(n: int, k: int, a: int, b: int, c: int)
    requires (k + 1) * c == (n - 1 - k) * b && k * b == (n - k) * a
    ensures (k + 1) * (b + c) == (n - k) * (a + b)
  {
    assert (k + 1) * (b + c) == k * b + b + (k + 1) * c;
    assert (n - 1 - k) * b == n * b - b - k * b;
    assert (n - k) * (a + b) == (n - k) * a + (n * b - k * b);
  }

  lemma {:induction false} ChoosePositive(n: nat, k: nat)
    ensures Choose(n, k) > 0 <==> k <= n
  {
    if n > 0 && k > 0 {
      ChoosePositive(n - 1, k - 1);
      ChoosePositive(n - 1, k);
    }
  }

  /** A column of Pascal's triangle grows, strictly from the first positive entry on. */
  lemma {:induction false} ChooseMono(t: nat, u: nat, k: nat)
    requires t <= u && k >= 1
    ensures Choose(t, k) <= Choose(u, k)
    ensures t < u && k <= u ==> Choose(t, k) < Choose(u, k)
  {
    if t < u {
      ChooseMono(t, u - 1, k);
      ChoosePositive(u - 1, k - 1);
    }
  }

  ghost function ChooseSum(n: nat, k: nat): nat {
    if n == 0 then 0 else ChooseSum(n - 1, k) + Choose(n - 1, k)
  }

  /** The sum of a column down to row n - 1. */
  lemma {:induction false} HockeyStick(n: nat, k: nat)
    ensures ChooseSum(n, k) == Choose(n, k + 1)
  {
    if n > 0 { HockeyStick(n - 1, k); }
  }

  // ------------------------------------------------------------------ counting

  /** The subsets of u with k elements. */
  ghost function SubsetsOf(u: set<nat>, k: nat): set<set<nat>> {
    set s | s <= u && |s| == k
  }

  ghost function WithElement(family: set<set<nat>>, x: nat): set<set<nat>> {
    set s | s in family :: s + {x}
  }

  lemma JoinInjective(s: set<nat>, t: set<nat>, x: nat)
    requires x !in s && x !in t && s + {x} == t + {x}
    ensures s == t
  {
    assert t == (t + {x}) - {x} && s == (s + {x}) - {x};
  }

  lemma WithOneMore(family: set<set<nat>>, s: set<nat>, x: nat)
    requires s !in family && x !in s && forall t :: t in family ==> x !in t
    ensures WithElement(family + {s}, x) == WithElement(family, x) + {s + {x}}
    ensures s + {x} !in WithElement(family, x)
  {
    if s + {x} in WithElement(family, x) {
      var t :| t in family && t + {x} == s + {x};
      JoinInjective(s, t, x);
    }
    assert forall t :: t in family + {s} <==> t in family || t == s;
  }

  lemma {:induction false} WithElementCount(family: set<set<nat>>, x: nat)
    requires forall s :: s in family ==> x !in s
    ensures |WithElement(family, x)| == |family|
  {
    if family != {} {
      hide WithElement;
      var s :| s in family;
      var rest := family - {s};
      WithElementCount(rest, x);
      assert family == rest + {s};
      WithOneMore(rest, s, x);
    } else {
      assert WithElement(family, x) == {};
    }
  }

  /** A k-element subset of u either avoids x or is one with k - 1 other elements, joined with x. */
  lemma SubsetsSplit(u: set<nat>, x: nat, k: nat)
    requires x in u && k > 0
    ensures SubsetsOf(u, k) == SubsetsOf(u - {x}, k) + WithElement(SubsetsOf(u - {x}, k - 1), x)
    ensures SubsetsOf(u - {x}, k) !! WithElement(SubsetsOf(u - {x}, k - 1), x)
  {
    var rest := u - {x};
    var without, joined := SubsetsOf(rest, k), WithElement(SubsetsOf(rest, k - 1), x);
    forall s ensures s in SubsetsOf(u, k) <==> s in without || s in joined
      ensures !(s in without && s in joined)
    {
      SubsetCases(u, x, k, s);
    }
  }

  lemma SubsetCases(u: set<nat>, x: nat, k: nat, s: set<nat>)
    requires x in u && k > 0
    ensures s in SubsetsOf(u - {x}, k) <==> s in SubsetsOf(u, k) && x !in s
    ensures s in WithElement(SubsetsOf(u - {x}, k - 1), x) <==> s in SubsetsOf(u, k) && x in s
  {
    var rest := u - {x};
    if s in SubsetsOf(u, k) && x in s {
      var less := s - {x};
      assert |s| == |less| + 1;
      assert less in SubsetsOf(rest, k - 1) && s == less + {x};
    }
    if s in WithElement(SubsetsOf(rest, k - 1), x) {
      var less :| less in SubsetsOf(rest, k - 1) && s == less + {x};
    }
  }

  /** Choose counts them. */
  lemma {:induction false} CountSubsets(u: set<nat>, k: nat)
    ensures |SubsetsOf(u, k)| == Choose(|u|, k)
  {
    hide SubsetsOf, WithElement, Choose;
    if k == 0 || u == {} {
      FewSubsets(u, k);
    } else {
      var x :| x in u;
      var rest := u - {x};
      CountSubsets(rest, k);
      CountSubsets(rest, k - 1);
      SubsetsSplit(u, x, k);
      ElementsAvoid(rest, x, k - 1);
      WithElementCount(SubsetsOf(rest, k - 1), x);
      Pascal(|u|, k);
    }
  }

  lemma FewSubsets(u: set<nat>, k: nat)
    requires k == 0 || u == {}
    ensures |SubsetsOf(u, k)| == Choose(|u|, k)
  {
    if k == 0 {
      forall s ensures s in SubsetsOf(u, k) <==> s == {} {}
      assert SubsetsOf(u, k) == {{}};
    } else {
      assert SubsetsOf(u, k) == {};
    }
  }

  lemma ElementsAvoid(u: set<nat>, x: nat, k: nat)
    requires x !in u
    ensures forall s :: s in SubsetsOf(u, k) ==> x !in s
  {
  }

  lemma Pascal(n: nat, k: nat)
    requires n > 0 && k > 0
    ensures Choose(n, k) == Choose(n - 1, k - 1) + Choose(n - 1, k)
  {
  }

  // ------------------------------------------------------------------ lists of subsets

  ghost function Exp(b: nat, k: nat): nat {
    if k == 0 then 1 else b * Exp(b, k - 1)
  }

  /** The lists of k members of a family. */
  ghost function ListsOf(family: set<set<nat>>, k: nat): set<seq<set<nat>>> {
    if k == 0 then {[]} else Extended(ListsOf(family, k - 1), family)
  }

  ghost function Extended(lists: set<seq<set<nat>>>, family: set<set<nat>>): set<seq<set<nat>>> {
    set l, s | l in lists && s in family :: l + [s]
  }

  ghost function Appended(lists: set<seq<set<nat>>>, s: set<nat>): set<seq<set<nat>>> {
    set l | l in lists :: l + [s]
  }

  lemma {:induction false} ListMember(family: set<set<nat>>, k: nat, l: seq<set<nat>>)
    ensures l in ListsOf(family, k) <==> |l| == k && forall i :: 0 <= i < k ==> l[i] in family
  {
    if k > 0 {
      if l != [] { ListMember(family, k - 1, l[..|l| - 1]); }
      ExtendedMember(ListsOf(family, k - 1), family, l);
      assert ListsOf(family, k) == Extended(ListsOf(family, k - 1), family);
      hide ListsOf, Extended;
    }
  }

  lemma ExtendedMember(lists: set<seq<set<nat>>>, family: set<set<nat>>, l: seq<set<nat>>)
    ensures l in Extended(lists, family) <==> l != [] && l[..|l| - 1] in lists && l[|l| - 1] in family
  {
    if l in Extended(lists, family) {
      var front, s :| front in lists && s in family && l == front + [s];
      assert l[..|l| - 1] == front;
    }
    if l != [] && l[..|l| - 1] in lists && l[|l| - 1] in family {
      assert l == l[..|l| - 1] + [l[|l| - 1]];
    }
  }

  lemma {:induction false} AppendedCount(lists: set<seq<set<nat>>>, s: set<nat>)
    ensures |Appended(lists, s)| == |lists|
  {
    if lists == {} {
      assert Appended(lists, s) == {};
    } else {
      var l :| l in lists;
      var rest := lists - {l};
      AppendedCount(rest, s);
      if l + [s] in Appended(rest, s) {
        var m :| m in rest && m + [s] == l + [s];
        SameFront(m, l, s);
      }
      assert Appended(lists, s) == Appended(rest, s) + {l + [s]};
    }
  }

  lemma SameFront(m: seq<set<nat>>, l: seq<set<nat>>, s: set<nat>)
    requires m + [s] == l + [s]
    ensures m == l
  {
    assert (m + [s])[..|m|] == m && (l + [s])[..|l|] == l;
  }

  lemma {:induction false} ExtendedCount(lists: set<seq<set<nat>>>, family: set<set<nat>>)
    ensures |Extended(lists, family)| == |lists| * |family|
  {
    hide Extended, Appended;
    if family == {} {
      NoExtension(lists);
    } else {
      var s :| s in family;
      var rest := family - {s};
      ExtendedCount(lists, rest);
      AppendedCount(lists, s);
      ExtendedSplit(lists, rest, s);
      assert family == rest + {s};
      OneMoreRow(|lists|, |rest|);
    }
  }

  lemma NoExtension(lists: set<seq<set<nat>>>)
    ensures Extended(lists, {}) == {}
  {
  }

  lemma OneMoreRow(a: nat, b: nat)
    ensures a * (b + 1) == a * b + a
  {
  }

  lemma ExtendedSplit(lists: set<seq<set<nat>>>, rest: set<set<nat>>, s: set<nat>)
    requires s !in rest
    ensures Extended(lists, rest + {s}) == Extended(lists, rest) + Appended(lists, s)
    ensures Extended(lists, rest) !! Appended(lists, s)
  {
    forall l | l in Extended(lists, rest) ensures l !in Appended(lists, s) {
      var m, u :| m in lists && u in rest && l == m + [u];
      assert l[|l| - 1] == u;
      forall m' | m' in lists ensures l != m' + [s] { assert (m' + [s])[|m'|] == s; }
    }
  }

  /** There are |family|^k of them. */
  lemma {:induction false} CountLists(family: set<set<nat>>, k: nat)
    ensures |ListsOf(family, k)| == Exp(|family|, k)
  {
    if k > 0 {
      CountLists(family, k - 1);
      ExtendedCount(ListsOf(family, k - 1), family);
    }
  }
}
