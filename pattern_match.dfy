/** The two-sided pattern matcher (src/ast/pattern_match.rs). Two argument
    lists from independent variable scopes are aligned position by position;
    a variable on one side meeting a name on the other is bound in that
    side's bindings, and the binding is applied at once, in place, to the
    whole of that side. */
module PatternMatch {
  import opened Wrappers
  import Variables
  import Names

  /** A term as the matcher sees it: a name or a variable. */
  datatype Term = Name(name: Names.Name) | Var(v: Variables.Variable)

  /** One side's bindings, from variable to name. */
  type Bindings = map<Variables.Variable, Names.Name>

  /** A term with the bindings applied. */
  function Resolve(b: Bindings, t: Term): Term
  {
    match t
    case Var(x) => if x in b then Name(b[x]) else t
    case Name(_) => t
  }

  /** Applying bindings to a list of terms: every variable bound in `b` is
      replaced by its name, everything else stays. */
  function Apply(b: Bindings, ts: seq<Term>): (r: seq<Term>)
    ensures |r| == |ts|
  {
    seq(|ts|, k requires 0 <= k < |ts| => Resolve(b, ts[k]))
  }

  /** After applying `b` no variable bound in `b` is left, every name is
      kept, and every variable `b` does not bind is kept. */
  lemma ApplyReplacesBound(b: Bindings, ts: seq<Term>)
    ensures var r := Apply(b, ts);
      && (forall k :: 0 <= k < |r| && r[k].Var? ==> r[k].v !in b)
      && (forall k :: 0 <= k < |r| && ts[k].Name? ==> r[k] == ts[k])
      && (forall k :: 0 <= k < |r| && ts[k].Var? ==> (r[k] == ts[k] <==> ts[k].v !in b))
  {
  }

  /** `s` agrees with every binding of `b`. */
  ghost predicate Extends(s: Bindings, b: Bindings)
  {
    forall x :: x in b ==> x in s && s[x] == b[x]
  }

  /** What a successful match returns: both sides' bindings and the two
      argument lists as they are left afterwards. */
  datatype Matched = Matched(lb: Bindings, rb: Bindings, left: seq<Term>, right: seq<Term>)

  /** The loop of `pattern_match` from position `i` on, with the current
      argument lists and bindings. */
  function MatchFrom(l: seq<Term>, r: seq<Term>, i: nat, lb: Bindings, rb: Bindings): (m: Option<Matched>)
    requires |l| == |r| && i <= |l|
    ensures m.Some? ==> |m.value.left| == |l| && |m.value.right| == |r|
    decreases |l| - i
  {
    if i == |l| then Some(Matched(lb, rb, l, r))
    else
      match (l[i], r[i])
      case (Name(a), Name(b)) =>
        if a != b then None else MatchFrom(l, r, i + 1, lb, rb)
      case (Var(x), Name(b)) =>
        if x in lb then None else MatchFrom(Apply(map[x := b], l), r, i + 1, lb[x := b], rb)
      case (Name(a), Var(y)) =>
        if y in rb then None else MatchFrom(l, Apply(map[y := a], r), i + 1, lb, rb[y := a])
      case (Var(_), Var(_)) =>
        MatchFrom(l, r, i + 1, lb, rb)
  }

  /** `pattern_match` on two argument lists, as a function of its inputs. */
  function Match(l: seq<Term>, r: seq<Term>): (m: Option<Matched>)
    requires |l| == |r|
    ensures m.Some? ==> |m.value.left| == |l| && |m.value.right| == |r|
  {
    MatchFrom(l, r, 0, map[], map[])
  }

  /** `apply_binding`: rewrites, in place, every occurrence of `Var(x)` to
      `Name(n)` and leaves every other term as it is. */
  method ApplyBinding(terms: array<Term>, x: Variables.Variable, n: Names.Name)
    modifies terms
    ensures terms[..] == Apply(map[x := n], old(terms[..]))
  {
    for i := 0 to terms.Length
      invariant forall k :: 0 <= k < i ==> terms[k] == Resolve(map[x := n], old(terms[k]))
      invariant forall k :: i <= k < terms.Length ==> terms[k] == old(terms[k])
    {
      if terms[i] == Var(x) {
        terms[i] := Name(n);
      }
    }
  }

  /** `pattern_match`: on success returns both sides' bindings and leaves both
      arrays rewritten as `Match` describes. A failed match may leave some
      rewriting already done, so nothing is promised about the arrays then.
      The arrays never alias: they are two distinct `&mut` borrows. */
  method PatternMatch(l: array<Term>, r: array<Term>) returns (res: Option<(Bindings, Bindings)>)
    requires l.Length == r.Length
    requires l != r
    modifies l, r
    ensures var m := Match(old(l[..]), old(r[..]));
      && (res.Some? <==> m.Some?)
      && (m.Some? ==> res.value == (m.value.lb, m.value.rb) && l[..] == m.value.left && r[..] == m.value.right)
  {
    var len := l.Length;
    var lb: Bindings := map[];
    var rb: Bindings := map[];
    for i := 0 to len
      invariant MatchFrom(l[..], r[..], i, lb, rb) == Match(old(l[..]), old(r[..]))
    {
      match (l[i], r[i]) {
        case (Name(lv), Name(rv)) =>
          if lv != rv {
            return None;
          }
        case (Var(lv), Name(rv)) =>
          if lv in lb {
            return None;
          }
          lb := lb[lv := rv];
          ApplyBinding(l, lv, rv);
        case (Name(lv), Var(rv)) =>
          if rv in rb {
            return None;
          }
          rb := rb[rv := lv];
          ApplyBinding(r, rv, lv);
        case (Var(_), Var(_)) =>
      }
    }
    return Some((lb, rb));
  }

  // ---------------------------------------------------------------------
  // Properties of the matcher

  /** Binding a fresh variable and applying it to an already-applied list is
      the same as applying the extended bindings to the original list. */
  lemma ApplyExtend(b: Bindings, x: Variables.Variable, n: Names.Name, ts: seq<Term>)
    requires x !in b
    ensures Apply(map[x := n], Apply(b, ts)) == Apply(b[x := n], ts)
  {
    var lhs, rhs := Apply(map[x := n], Apply(b, ts)), Apply(b[x := n], ts);
    forall k | 0 <= k < |ts| ensures lhs[k] == rhs[k] {
    }
  }

  /** Applying bindings that agree with `b` after `b` itself adds nothing. */
  lemma ApplyAbsorbs(s: Bindings, b: Bindings, ts: seq<Term>)
    requires Extends(s, b)
    ensures Apply(s, Apply(b, ts)) == Apply(s, ts)
  {
    var lhs, rhs := Apply(s, Apply(b, ts)), Apply(s, ts);
    forall k | 0 <= k < |ts| ensures lhs[k] == rhs[k] {
    }
  }

  lemma {:induction false} MatchFromApplies(l0: seq<Term>, r0: seq<Term>, l: seq<Term>, r: seq<Term>,
                                            i: nat, lb: Bindings, rb: Bindings)
    requires |l0| == |r0| && i <= |l0|
    requires l == Apply(lb, l0) && r == Apply(rb, r0)
    ensures var m := MatchFrom(l, r, i, lb, rb);
      m.Some? ==> m.value.left == Apply(m.value.lb, l0) && m.value.right == Apply(m.value.rb, r0)
    decreases |l0| - i
  {
    if i < |l| {
      match (l[i], r[i]) {
        case (Name(a), Name(b)) =>
          MatchFromApplies(l0, r0, l, r, i + 1, lb, rb);
        case (Var(x), Name(b)) =>
          if x !in lb {
            ApplyExtend(lb, x, b, l0);
            MatchFromApplies(l0, r0, Apply(map[x := b], l), r, i + 1, lb[x := b], rb);
          }
        case (Name(a), Var(y)) =>
          if y !in rb {
            ApplyExtend(rb, y, a, r0);
            MatchFromApplies(l0, r0, l, Apply(map[y := a], r), i + 1, lb, rb[y := a]);
          }
        case (Var(_), Var(_)) =>
          MatchFromApplies(l0, r0, l, r, i + 1, lb, rb);
      }
    }
  }

  /** On success each side is left as its input with its own bindings
      applied, so no bound variable occurs in it any more. */
  lemma MatchIsApply(l: seq<Term>, r: seq<Term>)
    requires |l| == |r|
    ensures Match(l, r).Some? ==>
      && Match(l, r).value.left == Apply(Match(l, r).value.lb, l)
      && Match(l, r).value.right == Apply(Match(l, r).value.rb, r)
    ensures Match(l, r).Some? ==>
      var m := Match(l, r).value;
      && (forall k :: 0 <= k < |m.left| && m.left[k].Var? ==> m.left[k].v !in m.lb)
      && (forall k :: 0 <= k < |m.right| && m.right[k].Var? ==> m.right[k].v !in m.rb)
  {
    assert Apply(map[], l) == l;
    assert Apply(map[], r) == r;
    MatchFromApplies(l, r, l, r, 0, map[], map[]);
    if Match(l, r).Some? {
      ApplyReplacesBound(Match(l, r).value.lb, l);
      ApplyReplacesBound(Match(l, r).value.rb, r);
    }
  }

  /** The loop of `pattern_match` without its two `contains_key` checks: a
      variable met against a name is always bound. */
  function MatchFromUnchecked(l: seq<Term>, r: seq<Term>, i: nat, lb: Bindings, rb: Bindings): Option<Matched>
    requires |l| == |r| && i <= |l|
    decreases |l| - i
  {
    if i == |l| then Some(Matched(lb, rb, l, r))
    else
      match (l[i], r[i])
      case (Name(a), Name(b)) =>
        if a != b then None else MatchFromUnchecked(l, r, i + 1, lb, rb)
      case (Var(x), Name(b)) =>
        MatchFromUnchecked(Apply(map[x := b], l), r, i + 1, lb[x := b], rb)
      case (Name(a), Var(y)) =>
        MatchFromUnchecked(l, Apply(map[y := a], r), i + 1, lb, rb[y := a])
      case (Var(_), Var(_)) =>
        MatchFromUnchecked(l, r, i + 1, lb, rb)
  }

  /** While each side is its input with that side's bindings applied, the
      variable met at position `i` is never already bound, so the
      `contains_key` returns are never taken and the matcher runs exactly as
      the loop without them. */
  lemma {:induction false} ContainsKeyUnreachable(l0: seq<Term>, r0: seq<Term>, l: seq<Term>, r: seq<Term>,
                                                  i: nat, lb: Bindings, rb: Bindings)
    requires |l0| == |r0| && i <= |l0|
    requires l == Apply(lb, l0) && r == Apply(rb, r0)
    ensures i < |l| && l[i].Var? ==> l[i].v !in lb
    ensures i < |r| && r[i].Var? ==> r[i].v !in rb
    ensures MatchFrom(l, r, i, lb, rb) == MatchFromUnchecked(l, r, i, lb, rb)
    decreases |l0| - i
  {
    if i < |l| {
      ApplyReplacesBound(lb, l0);
      ApplyReplacesBound(rb, r0);
      match (l[i], r[i]) {
        case (Name(a), Name(b)) =>
          if a == b {
            ContainsKeyUnreachable(l0, r0, l, r, i + 1, lb, rb);
          }
        case (Var(x), Name(b)) =>
          ApplyExtend(lb, x, b, l0);
          ContainsKeyUnreachable(l0, r0, Apply(map[x := b], l), r, i + 1, lb[x := b], rb);
        case (Name(a), Var(y)) =>
          ApplyExtend(rb, y, a, r0);
          ContainsKeyUnreachable(l0, r0, l, Apply(map[y := a], r), i + 1, lb, rb[y := a]);
        case (Var(_), Var(_)) =>
          ContainsKeyUnreachable(l0, r0, l, r, i + 1, lb, rb);
      }
    }
  }

  /** `pattern_match` never meets a variable it has already bound: a key is
      never inserted twice, and the `contains_key` returns are dead code. */
  lemma MatchNeverRebinds(l: seq<Term>, r: seq<Term>)
    requires |l| == |r|
    ensures Match(l, r) == MatchFromUnchecked(l, r, 0, map[], map[])
  {
    assert Apply(map[], l) == l;
    assert Apply(map[], r) == r;
    ContainsKeyUnreachable(l, r, l, r, 0, map[], map[]);
  }

  lemma {:induction false} MatchFromAgrees(l0: seq<Term>, r0: seq<Term>, l: seq<Term>, r: seq<Term>,
                                           i: nat, lb: Bindings, rb: Bindings)
    requires |l0| == |r0| && i <= |l0|
    requires l == Apply(lb, l0) && r == Apply(rb, r0)
    requires forall k :: 0 <= k < i && !(l0[k].Var? && r0[k].Var?) ==> l[k] == r[k] && l[k].Name?
    ensures var m := MatchFrom(l, r, i, lb, rb);
      m.Some? ==> forall k :: 0 <= k < |l0| && !(l0[k].Var? && r0[k].Var?) ==> m.value.left[k] == m.value.right[k]
    decreases |l0| - i
  {
    if i < |l| {
      match (l[i], r[i]) {
        case (Name(a), Name(b)) =>
          if a == b {
            MatchFromAgrees(l0, r0, l, r, i + 1, lb, rb);
          }
        case (Var(x), Name(b)) =>
          if x !in lb {
            ApplyExtend(lb, x, b, l0);
            MatchFromAgrees(l0, r0, Apply(map[x := b], l), r, i + 1, lb[x := b], rb);
          }
        case (Name(a), Var(y)) =>
          if y !in rb {
            ApplyExtend(rb, y, a, r0);
            MatchFromAgrees(l0, r0, l, Apply(map[y := a], r), i + 1, lb, rb[y := a]);
          }
        case (Var(_), Var(_)) =>
          MatchFromAgrees(l0, r0, l, r, i + 1, lb, rb);
      }
    }
  }

  /** On success the two sides agree at every position where the inputs did
      not both hold a variable. A position holding two variables is left
      unconstrained: the two scopes never bind to each other. */
  lemma MatchAgrees(l: seq<Term>, r: seq<Term>)
    requires |l| == |r|
    ensures Match(l, r).Some? ==>
      forall k :: 0 <= k < |l| && !(l[k].Var? && r[k].Var?) ==> Match(l, r).value.left[k] == Match(l, r).value.right[k]
  {
    assert Apply(map[], l) == l;
    assert Apply(map[], r) == r;
    MatchFromAgrees(l, r, l, r, 0, map[], map[]);
  }

  /** Two different names at the same position make the match fail. */
  lemma NameClashFails(l: seq<Term>, r: seq<Term>, k: nat)
    requires |l| == |r| && k < |l|
    requires l[k].Name? && r[k].Name? && l[k] != r[k]
    ensures Match(l, r) == None
  {
    MatchIsApply(l, r);
    MatchAgrees(l, r);
  }

  /** Bindings that solve the inputs also solve each position of the
      partly rewritten lists. */
  lemma SolutionAt(l0: seq<Term>, r0: seq<Term>, l: seq<Term>, r: seq<Term>,
                   i: nat, lb: Bindings, rb: Bindings, sl: Bindings, sr: Bindings)
    requires |l0| == |r0| && i < |l0|
    requires l == Apply(lb, l0) && r == Apply(rb, r0)
    requires Extends(sl, lb) && Extends(sr, rb)
    requires Apply(sl, l0) == Apply(sr, r0)
    ensures Resolve(sl, l[i]) == Resolve(sr, r[i])
  {
    ApplyAbsorbs(sl, lb, l0);
    ApplyAbsorbs(sr, rb, r0);
    assert Apply(sl, l)[i] == Apply(sr, r)[i];
  }

  lemma {:induction false} MatchFromComplete(l0: seq<Term>, r0: seq<Term>, l: seq<Term>, r: seq<Term>,
                                             i: nat, lb: Bindings, rb: Bindings, sl: Bindings, sr: Bindings)
    requires |l0| == |r0| && i <= |l0|
    requires l == Apply(lb, l0) && r == Apply(rb, r0)
    requires Extends(sl, lb) && Extends(sr, rb)
    requires Apply(sl, l0) == Apply(sr, r0)
    ensures var m := MatchFrom(l, r, i, lb, rb);
      m.Some? && Extends(sl, m.value.lb) && Extends(sr, m.value.rb)
    decreases |l0| - i
  {
    if i < |l| {
      SolutionAt(l0, r0, l, r, i, lb, rb, sl, sr);
      match (l[i], r[i]) {
        case (Name(a), Name(b)) =>
          MatchFromComplete(l0, r0, l, r, i + 1, lb, rb, sl, sr);
        case (Var(x), Name(b)) =>
          assert x !in lb && sl[x] == b;
          assert Extends(sl, lb[x := b]);
          ApplyExtend(lb, x, b, l0);
          MatchFromComplete(l0, r0, Apply(map[x := b], l), r, i + 1, lb[x := b], rb, sl, sr);
        case (Name(a), Var(y)) =>
          assert y !in rb && sr[y] == a;
          assert Extends(sr, rb[y := a]);
          ApplyExtend(rb, y, a, r0);
          MatchFromComplete(l0, r0, l, Apply(map[y := a], r), i + 1, lb, rb[y := a], sl, sr);
        case (Var(_), Var(_)) =>
          MatchFromComplete(l0, r0, l, r, i + 1, lb, rb, sl, sr);
      }
    }
  }

  /** Whenever some pair of bindings makes the two sides equal, the match
      succeeds, and the bindings it computes are part of every such pair:
      a failed match means no bindings can make the sides agree. */
  lemma MatchComplete(l: seq<Term>, r: seq<Term>, sl: Bindings, sr: Bindings)
    requires |l| == |r|
    requires Apply(sl, l) == Apply(sr, r)
    ensures Match(l, r).Some?
    ensures Extends(sl, Match(l, r).value.lb) && Extends(sr, Match(l, r).value.rb)
  {
    assert Apply(map[], l) == l;
    assert Apply(map[], r) == r;
    MatchFromComplete(l, r, l, r, 0, map[], map[], sl, sr);
  }

  // ---------------------------------------------------------------------
  // Worked cases

  /** The `literal` test: `[X, Y, X, Y]` against `[1, 1, X, X]` leaves both
      sides `[1, 1, 1, 1]`, with `X ↦ 1, Y ↦ 1` on the left and `X ↦ 1` on
      the right. */
  lemma LiteralExample()
    ensures var x, y, one := Var(Variables.Variable("X")), Var(Variables.Variable("Y")), Name(Names.Name("1"));
      Match([x, y, x, y], [one, one, x, x])
        == Some(Matched(map[Variables.Variable("X") := Names.Name("1"), Variables.Variable("Y") := Names.Name("1")],
                        map[Variables.Variable("X") := Names.Name("1")],
                        [one, one, one, one], [one, one, one, one]))
  {
    var vx, vy, n1 := Variables.Variable("X"), Variables.Variable("Y"), Names.Name("1");
    var x, y, one := Var(vx), Var(vy), Name(n1);
    var l0, r0 := [x, y, x, y], [one, one, x, x];
    var l1 := Apply(map[vx := n1], l0);
    assert l1 == [one, y, one, y];
    var l2 := Apply(map[vy := n1], l1);
    assert l2 == [one, one, one, one];
    var r3 := Apply(map[vx := n1], r0);
    assert r3 == [one, one, one, one];
    var lb1 := map[vx := n1];
    var lb2 := lb1[vy := n1];
    var rb3 := map[vx := n1];
    calc {
      Match(l0, r0);
      MatchFrom(l1, r0, 1, lb1, map[]);
      MatchFrom(l2, r0, 2, lb2, map[]);
      MatchFrom(l2, r0, 3, lb2, map[]);
      MatchFrom(l2, r3, 4, lb2, rb3);
    }
  }

  /** Matching `[X, X]` against `[a, b]` fails: the first position binds `X`
      to `a`, after which the second position compares `a` with `b`. */
  lemma ConflictExample()
    ensures Match([Var(Variables.Variable("X")), Var(Variables.Variable("X"))],
                  [Name(Names.Name("a")), Name(Names.Name("b"))]) == None
  {
    var vx, a := Variables.Variable("X"), Names.Name("a");
    assert Apply(map[vx := a], [Var(vx), Var(vx)]) == [Name(a), Name(a)];
  }

  /** A position holding two variables records nothing: `[X]` against `[Y]`
      succeeds with no bindings. And because it records nothing, later
      bindings may leave that position with two different names:
      `[X, X, c]` against `[Y, a, Y]` succeeds with `[a, a, c]` and
      `[c, a, c]`. */
  lemma VariablePairExample()
    ensures Match([Var(Variables.Variable("X"))], [Var(Variables.Variable("Y"))])
         == Some(Matched(map[], map[], [Var(Variables.Variable("X"))], [Var(Variables.Variable("Y"))]))
    ensures var x, y, a, c := Var(Variables.Variable("X")), Var(Variables.Variable("Y")),
                              Name(Names.Name("a")), Name(Names.Name("c"));
      Match([x, x, c], [y, a, y])
        == Some(Matched(map[Variables.Variable("X") := Names.Name("a")], map[Variables.Variable("Y") := Names.Name("c")],
                        [a, a, c], [c, a, c]))
  {
    var vx, vy, na, nc := Variables.Variable("X"), Variables.Variable("Y"), Names.Name("a"), Names.Name("c");
    var x, y, a, c := Var(vx), Var(vy), Name(na), Name(nc);
    var l1 := Apply(map[vx := na], [x, x, c]);
    assert l1 == [a, a, c];
    var r2 := Apply(map[vy := nc], [y, a, y]);
    assert r2 == [c, a, c];
    calc {
      Match([x, x, c], [y, a, y]);
      MatchFrom([x, x, c], [y, a, y], 1, map[], map[]);
      MatchFrom(l1, [y, a, y], 2, map[vx := na], map[]);
      MatchFrom(l1, r2, 3, map[vx := na], map[vy := nc]);
    }
  }

  /** The `literal` test stated over arrays: `pattern_match` succeeds and
      leaves both arrays `[1, 1, 1, 1]`. */
  method LiteralTest()
  {
    var x, y, one := Var(Variables.Variable("X")), Var(Variables.Variable("Y")), Name(Names.Name("1"));
    var l := new Term[4] [x, y, x, y];
    var r := new Term[4] [one, one, x, x];
    assert l[..] == [x, y, x, y] && r[..] == [one, one, x, x];
    LiteralExample();
    var res := PatternMatch(l, r);
    assert res.Some?;
    assert l[..] == [one, one, one, one];
    assert r[..] == [one, one, one, one];
  }
}
