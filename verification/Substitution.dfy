/**
 Replacing symbols through fresh names: two unsafe sequential replacements that together are one
 simultaneous substitution.
 */
module Substitution {
  import opened Basics

  /** Literals stand for values that are not symbolic expressions. */
  datatype Expr =
    | Number(n: int)
    | Literal(text: string)
    | Symbol(name: string)
    | Apply(op: string, args: seq<Expr>)

  type Mapping = map<string, Expr>

  function Symbols(e: Expr): set<string> {
    match e
    case Number(_) => {}
    case Literal(_) => {}
    case Symbol(name) => {name}
    case Apply(_, args) => set i, s | 0 <= i < |args| && s in Symbols(args[i]) :: s
  }

  /** Simultaneous substitution. */
  function Subst(e: Expr, m: Mapping): Expr {
    match e
    case Number(_) => e
    case Literal(_) => e
    case Symbol(name) => if name in m then m[name] else e
    case Apply(op, args) => Apply(op, seq(|args|, i requires 0 <= i < |args| => Subst(args[i], m)))
  }

  /** One replacement after another, in the given order. */
  function SubstInOrder(e: Expr, order: seq<(string, Expr)>): Expr
    decreases |order|
  {
    if order == [] then e else SubstInOrder(Subst(e, map[order[0].0 := order[0].1]), order[1..])
  }

  /** The entries of a dictionary in some order. */
  ghost predicate Lists(order: seq<(string, Expr)>, m: Mapping) {
    && (forall i, j :: 0 <= i < j < |order| ==> order[i].0 != order[j].0)
    && (forall i :: 0 <= i < |order| ==> order[i].0 in m && m[order[i].0] == order[i].1)
    && (forall k :: k in m ==> (k, m[k]) in order)
  }

  /** No value mentions a key: replacements do not feed each other. */
  ghost predicate Detached(m: Mapping) {
    forall k, s :: k in m && s in Symbols(m[k]) ==> s !in m
  }

  // ---- what substitution means ----

  /** What literals and operations stand for. */
  datatype Meaning = Meaning(literal: string -> int, apply: (string, seq<int>) -> int)

  function Eval(e: Expr, sem: Meaning, env: string -> int): int {
    match e
    case Number(n) => n
    case Literal(text) => sem.literal(text)
    case Symbol(name) => env(name)
    case Apply(op, args) => sem.apply(op, seq(|args|, i requires 0 <= i < |args| => Eval(args[i], sem, env)))
  }

  /** Mapped symbols have the values of what they are mapped to. */
  function Mapped(m: Mapping, sem: Meaning, env: string -> int): string -> int {
    name => if name in m then Eval(m[name], sem, env) else env(name)
  }

  /** Substituting symbols gives them the values of what replaces them, all at once. */
  lemma {:induction false} SubstEvaluates(e: Expr, m: Mapping, sem: Meaning, env: string -> int)
    ensures Eval(Subst(e, m), sem, env) == Eval(e, sem, Mapped(m, sem, env))
  {
    if e.Apply? {
      forall i | 0 <= i < |e.args| ensures Eval(Subst(e.args[i], m), sem, env) == Eval(e.args[i], sem, Mapped(m, sem, env)) {
        SubstEvaluates(e.args[i], m, sem, env);
      }
      var after := seq(|e.args|, i requires 0 <= i < |e.args| => Subst(e.args[i], m));
      assert seq(|after|, i requires 0 <= i < |after| => Eval(after[i], sem, env))
          == seq(|e.args|, i requires 0 <= i < |e.args| => Eval(e.args[i], sem, Mapped(m, sem, env)));
    }
  }

  // ---- structural facts ----

  lemma {:induction false} SubstNothing(e: Expr, m: Mapping)
    requires forall s :: s in Symbols(e) ==> s !in m
    ensures Subst(e, m) == e
  {
    if e.Apply? {
      forall i | 0 <= i < |e.args| ensures Subst(e.args[i], m) == e.args[i] {
        SubstNothing(e.args[i], m);
      }
      assert Subst(e, m).args == e.args;
    }
  }

  /** Replacing one key first makes no difference when its value mentions no key of the rest. */
  lemma {:induction false} SubstOneFirst(e: Expr, k: string, v: Expr, rest: Mapping)
    requires k !in rest && forall s :: s in Symbols(v) ==> s !in rest
    ensures Subst(Subst(e, map[k := v]), rest) == Subst(e, rest[k := v])
  {
    match e
    case Symbol(name) =>
      if name == k {
        SubstNothing(v, rest);
      }
    case Apply(op, args) =>
      var left, right := Subst(Subst(e, map[k := v]), rest), Subst(e, rest[k := v]);
      forall i | 0 <= i < |args| ensures left.args[i] == right.args[i] {
        SubstOneFirst(args[i], k, v, rest);
      }
      assert left.args == right.args;
    case _ =>
  }

  /** For detached dictionaries every order gives the simultaneous substitution. */
  lemma {:induction false} AnyOrderWillDo(e: Expr, order: seq<(string, Expr)>, m: Mapping)
    requires Lists(order, m) && Detached(m)
    ensures SubstInOrder(e, order) == Subst(e, m)
    decreases |order|
  {
    if order == [] {
      SubstNothing(e, m);
    } else {
      var (k, v) := order[0];
      var rest := m - {k};
      assert m == rest[k := v];
      forall k' | k' in rest ensures (k', rest[k']) in order[1..] {
        assert (k', m[k']) in order;
        var i :| 0 <= i < |order| && order[i] == (k', m[k']);
        assert order[1..][i - 1] == order[i];
      }
      assert Lists(order[1..], rest) by {
        forall i | 0 <= i < |order[1..]| ensures order[1..][i].0 in rest {
          assert order[1..][i] == order[i + 1] && order[0].0 != order[i + 1].0;
        }
      }
      SubstOneFirst(e, k, v, rest);
      AnyOrderWillDo(Subst(e, map[k := v]), order[1..], rest);
    }
  }

  // ---- the two dictionaries ----

  const PREFIX := "__dacesym_"

  function Fresh(k: string): string {
    PREFIX + k
  }

  predicate Reserved(s: string) {
    PREFIX <= s
  }

  lemma FreshInjective(k: string, l: string)
    requires Fresh(k) == Fresh(l)
    ensures k == l
  {
    assert Fresh(k)[|PREFIX|..] == k && Fresh(l)[|PREFIX|..] == l;
  }

  /** Keys that are not mapped to themselves. */
  predicate Proper(mapping: Mapping, k: string) {
    k in mapping && mapping[k] != Symbol(k)
  }

  /** First dictionary: keys to fresh names, except the `direct` ones, which get their value at once. */
  function ToFresh(mapping: Mapping, direct: set<string>): Mapping {
    map k | k in mapping && Proper(mapping, k) :: if k in direct then mapping[k] else Symbol(Fresh(k))
  }

  /** Second dictionary: fresh names to final values. */
  function FromFresh(mapping: Mapping, direct: set<string>): Mapping {
    AllFresh();
    map k | k in mapping && Proper(mapping, k) && k !in direct :: Fresh(k) := mapping[k]
  }

  lemma AllFresh()
    ensures forall k, l :: Fresh(k) == Fresh(l) ==> k == l
  {
    forall k, l | Fresh(k) == Fresh(l) ensures k == l {
      FreshInjective(k, l);
    }
  }

  /** Keys and values of the mapping stay clear of the reserved prefix. */
  ghost predicate Clean(mapping: Mapping) {
    forall k :: k in mapping ==> !Reserved(k) && forall s :: s in Symbols(mapping[k]) ==> !Reserved(s)
  }

  /** None of the fresh names that are used is itself a key to replace, or occurs in a final value. */
  ghost predicate Unmixed(mapping: Mapping, direct: set<string>) {
    forall f :: f in FromFresh(mapping, direct) ==>
      f !in ToFresh(mapping, direct) && forall g :: g in FromFresh(mapping, direct) ==> f !in Symbols(FromFresh(mapping, direct)[g])
  }

  lemma CleanIsUnmixed(mapping: Mapping, direct: set<string>)
    requires Clean(mapping)
    ensures Unmixed(mapping, direct)
  {
    var back := FromFresh(mapping, direct);
    forall f | f in back ensures Reserved(f) && forall s :: s in Symbols(back[f]) ==> !Reserved(s) {
      var k :| k in mapping && f == Fresh(k) && back[f] == mapping[k];
    }
  }

  /** Values given directly mention no symbol. */
  ghost predicate DirectValuesClosed(mapping: Mapping, direct: set<string>) {
    forall k :: k in direct && k in mapping ==> Symbols(mapping[k]) == {}
  }

  lemma ToFreshDetached(mapping: Mapping, direct: set<string>)
    requires Unmixed(mapping, direct) && DirectValuesClosed(mapping, direct)
    ensures Detached(ToFresh(mapping, direct))
  {
    var m := ToFresh(mapping, direct);
    forall k, s | k in m && s in Symbols(m[k]) ensures s !in m {
      if k !in direct {
        FreshValue(mapping, direct, k);
      }
    }
  }

  lemma FromFreshDetached(mapping: Mapping, direct: set<string>)
    requires Unmixed(mapping, direct)
    ensures Detached(FromFresh(mapping, direct))
  {
  }

  /** Through fresh names and back is the mapping itself, on expressions without those names. */
  lemma {:induction false} ThroughFresh(e: Expr, mapping: Mapping, direct: set<string>)
    requires DirectValuesClosed(mapping, direct)
    requires forall s :: s in Symbols(e) ==> s !in FromFresh(mapping, direct)
    ensures Subst(Subst(e, ToFresh(mapping, direct)), FromFresh(mapping, direct)) == Subst(e, mapping)
  {
    var to, back := ToFresh(mapping, direct), FromFresh(mapping, direct);
    match e
    case Symbol(name) =>
      if name in to {
        if name in direct {
          SubstNothing(mapping[name], back);
        } else {
          assert Fresh(name) in back;
          FreshValue(mapping, direct, name);
        }
      } else {
        assert name in Symbols(e);
      }
    case Apply(op, args) =>
      var left, right := Subst(Subst(e, to), back), Subst(e, mapping);
      forall i | 0 <= i < |args| ensures left.args[i] == right.args[i] {
        forall s | s in Symbols(args[i]) ensures s !in back {
          assert s in Symbols(e);
        }
        ThroughFresh(args[i], mapping, direct);
      }
      assert left.args == right.args;
    case _ =>
  }

  lemma FreshValue(mapping: Mapping, direct: set<string>, k: string)
    requires k in mapping && Proper(mapping, k) && k !in direct
    ensures Fresh(k) in FromFresh(mapping, direct) && FromFresh(mapping, direct)[Fresh(k)] == mapping[k]
  {
    var back := FromFresh(mapping, direct);
    assert Fresh(k) in back;
    var l :| l in mapping && Fresh(l) == Fresh(k) && back[Fresh(k)] == mapping[l];
    FreshInjective(l, k);
  }

  // ---- when a fresh name occurs already ----

  lemma {:induction false} UntouchedSymbolStays(e: Expr, m: Mapping, s: string)
    requires s in Symbols(e) && (s in m ==> s in Symbols(m[s]))
    ensures s in Symbols(Subst(e, m))
  {
    if e.Apply? {
      var i :| 0 <= i < |e.args| && s in Symbols(e.args[i]);
      UntouchedSymbolStays(e.args[i], m, s);
      assert Subst(e, m).args[i] == Subst(e.args[i], m);
    }
  }

  lemma {:induction false} ReplacedSymbolGoes(e: Expr, m: Mapping, s: string)
    requires s in m && forall k :: k in m ==> s !in Symbols(m[k])
    ensures s !in Symbols(Subst(e, m))
  {
    if e.Apply? {
      forall i | 0 <= i < |e.args| ensures s !in Symbols(Subst(e, m).args[i]) {
        ReplacedSymbolGoes(e.args[i], m, s);
      }
    }
  }

  /** A result of the two-step replacement, for some orders of the two dictionaries. */
  ghost predicate IsTwoStep(e: Expr, mapping: Mapping, direct: set<string>, r: Expr) {
    exists first, second :: Lists(first, ToFresh(mapping, direct)) && Lists(second, FromFresh(mapping, direct))
                            && r == SubstInOrder(SubstInOrder(e, first), second)
  }

  /** Two-step replacement is simultaneous substitution, whatever the orders, exactly when the
      expression contains none of the fresh names it goes through (of a mapping that does not mix them up). */
  lemma {:induction false} TwoStepIsSimultaneousIff(e: Expr, mapping: Mapping, direct: set<string>, r: Expr)
    requires Unmixed(mapping, direct) && DirectValuesClosed(mapping, direct) && IsTwoStep(e, mapping, direct, r)
    ensures r == Subst(e, mapping) <==> Symbols(e) !! FromFresh(mapping, direct).Keys
  {
    var to, back := ToFresh(mapping, direct), FromFresh(mapping, direct);
    var first, second :| Lists(first, to) && Lists(second, back) && r == SubstInOrder(SubstInOrder(e, first), second);
    hide ToFresh, FromFresh, Unmixed;
    ToFreshDetached(mapping, direct);
    FromFreshDetached(mapping, direct);
    AnyOrderWillDo(e, first, to);
    AnyOrderWillDo(Subst(e, to), second, back);
    if Symbols(e) !! back.Keys {
      ThroughFresh(e, mapping, direct);
    } else {
      var f :| f in Symbols(e) && f in back;
      FreshNameShows(e, mapping, direct, f);
    }
  }

  /** A used fresh name in the expression is lost on the way, although no key replaces it. */
  lemma FreshNameShows(e: Expr, mapping: Mapping, direct: set<string>, f: string)
    requires Unmixed(mapping, direct) && f in Symbols(e) && f in FromFresh(mapping, direct)
    ensures Subst(Subst(e, ToFresh(mapping, direct)), FromFresh(mapping, direct)) != Subst(e, mapping)
  {
    assert f !in ToFresh(mapping, direct);
    UntouchedSymbolStays(e, mapping, f);
    ReplacedSymbolGoes(Subst(e, ToFresh(mapping, direct)), FromFresh(mapping, direct), f);
  }

  /** No input uses the reserved prefix: the promise of the documentation. */
  lemma TwoStepIsSimultaneous(e: Expr, mapping: Mapping, direct: set<string>, r: Expr)
    requires Clean(mapping) && DirectValuesClosed(mapping, direct) && IsTwoStep(e, mapping, direct, r)
    requires forall s :: s in Symbols(e) ==> !Reserved(s)
    ensures r == Subst(e, mapping)
  {
    forall f | f in FromFresh(mapping, direct) ensures Reserved(f) {
      var k :| k in mapping && f == Fresh(k);
    }
    CleanIsUnmixed(mapping, direct);
    TwoStepIsSimultaneousIff(e, mapping, direct, r);
  }

  /** So two-step replacement evaluates every symbol as its replacement, also where replacements mention
      symbols that are replaced themselves. */
  lemma TwoStepEvaluates(e: Expr, mapping: Mapping, direct: set<string>, r: Expr, sem: Meaning, env: string -> int)
    requires Clean(mapping) && DirectValuesClosed(mapping, direct) && Unreserved(e) && IsTwoStep(e, mapping, direct, r)
    ensures Eval(r, sem, env) == Eval(e, sem, Mapped(mapping, sem, env))
  {
    TwoStepIsSimultaneous(e, mapping, direct, r);
    SubstEvaluates(e, mapping, sem, env);
  }

  /** A reserved name in the input is replaced although it is no key: N to M turns __dacesym_N into M. */
  lemma ReservedNameReplaced()
    ensures var mapping: Mapping, e := map["N" := Symbol("M")], Symbol("__dacesym_N");
            && Clean(mapping) && Subst(e, mapping) == e
            && IsTwoStep(e, mapping, {}, Symbol("M")) && forall r :: IsTwoStep(e, mapping, {}, r) ==> r != e
  {
    var mapping: Mapping, e := map["N" := Symbol("M")], Symbol("__dacesym_N");
    NamesOfExample();
    hide Fresh, Reserved;
    var f := Fresh("N");
    var first, second := [("N", Symbol(f))], [(f, Symbol("M"))];
    assert first[0] == ("N", Symbol(f)) && second[0] == (f, Symbol("M"));
    assert ToFresh(mapping, {}) == map["N" := Symbol(f)] && Lists(first, ToFresh(mapping, {}));
    FreshValue(mapping, {}, "N");
    assert Lists(second, FromFresh(mapping, {})) by {
      forall l | l in FromFresh(mapping, {}) ensures l == f {
      }
    }
    SubstOneEntry(e, "N", Symbol(f));
    SubstOneEntry(e, f, Symbol("M"));
    CleanIsUnmixed(mapping, {});
    forall r | IsTwoStep(e, mapping, {}, r) ensures r != e {
      TwoStepIsSimultaneousIff(e, mapping, {}, r);
    }
  }

  function MixedMapping(): Mapping {
    map["N" := Symbol("__dacesym_M"), "M" := Symbol("X")]
  }

  lemma MixedToFresh()
    ensures ToFresh(MixedMapping(), {}) == map["N" := Symbol("__dacesym_N"), "M" := Symbol("__dacesym_M")]
  {
    NamesOfMixed();
  }

  lemma MixedFromFresh()
    ensures FromFresh(MixedMapping(), {}) == map["__dacesym_N" := Symbol("__dacesym_M"), "__dacesym_M" := Symbol("X")]
  {
    var mapping := MixedMapping();
    NamesOfMixed();
    hide Fresh;
    FreshValue(mapping, {}, "N");
    FreshValue(mapping, {}, "M");
    forall f | f in FromFresh(mapping, {}) ensures f == "__dacesym_N" || f == "__dacesym_M" {
    }
  }

  /** A mapping that uses a fresh name as a value: N to __dacesym_M and M to X can turn N into X. */
  lemma MixedMappingFails()
    ensures !Unmixed(MixedMapping(), {}) && Subst(Symbol("N"), MixedMapping()) == Symbol("__dacesym_M")
    ensures Symbols(Symbol("N")) !! FromFresh(MixedMapping(), {}).Keys
    ensures IsTwoStep(Symbol("N"), MixedMapping(), {}, Symbol("X"))
  {
    var fn: string, fm: string := "__dacesym_N", "__dacesym_M";
    var to: Mapping, back: Mapping := map["N" := Symbol(fn), "M" := Symbol(fm)], map[fn := Symbol(fm), fm := Symbol("X")];
    NamesOfMixed();
    MixedToFresh();
    MixedFromFresh();
    hide ToFresh, FromFresh, Fresh;
    ListsTwo("N", "M", to);
    ListsTwo(fn, fm, back);
    SubstTwo(Symbol("N"), "N", to["N"], "M", to["M"]);
    SubstTwo(Symbol(fn), fn, back[fn], fm, back[fm]);
    assert fm in Symbols(FromFresh(MixedMapping(), {})[fn]);
  }

  lemma ListsTwo(k: string, l: string, m: Mapping)
    requires k != l && m.Keys == {k, l}
    ensures Lists([(k, m[k]), (l, m[l])], m)
  {
    var order := [(k, m[k]), (l, m[l])];
    assert order[0] == (k, m[k]) && order[1] == (l, m[l]);
  }

  lemma SubstTwo(e: Expr, k: string, v: Expr, l: string, w: Expr)
    ensures SubstInOrder(e, [(k, v), (l, w)]) == Subst(Subst(e, map[k := v]), map[l := w])
  {
    assert [(k, v), (l, w)][1..] == [(l, w)];
    SubstOneEntry(Subst(e, map[k := v]), l, w);
  }

  lemma NamesOfMixed()
    ensures Fresh("N") == "__dacesym_N" && Fresh("M") == "__dacesym_M" && "__dacesym_N" != "__dacesym_M"
    ensures "N" != "M" && "__dacesym_N" != "N" && "__dacesym_N" != "M" && "__dacesym_M" != "N" && "__dacesym_M" != "M"
    ensures "X" != "N" && "X" != "M" && "X" != "__dacesym_N" && "X" != "__dacesym_M"
  {
    assert "N"[0] == 'N' && "M"[0] == 'M' && "X"[0] == 'X' && "__dacesym_N"[0] == '_' && "__dacesym_M"[0] == '_';
    assert "__dacesym_N"[10] == 'N' && "__dacesym_M"[10] == 'M';
  }

  lemma SubstOneEntry(e: Expr, k: string, v: Expr)
    ensures SubstInOrder(e, [(k, v)]) == Subst(e, map[k := v])
  {
    assert [(k, v)][1..] == [];
  }

  lemma NamesOfExample()
    ensures Fresh("N") == "__dacesym_N" && "__dacesym_N" != "N" && "__dacesym_N" != "M" && "M" != "N"
    ensures !Reserved("N") && !Reserved("M")
  {
    assert "N"[0] == 'N' && "M"[0] == 'M' && PREFIX[0] == '_' && "__dacesym_N"[0] == '_';
  }

  /** Why one pass is not enough: replacing M by N and then N by M undoes the swap. */
  lemma {:induction false} SwapNeedsTwoSteps()
    ensures var swap: Mapping, order := map["M" := Symbol("N"), "N" := Symbol("M")], [("M", Symbol("N")), ("N", Symbol("M"))];
            Lists(order, swap) && SubstInOrder(Symbol("M"), order) == Symbol("M") != Subst(Symbol("M"), swap)
  {
    var swap: Mapping, order := map["M" := Symbol("N"), "N" := Symbol("M")], [("M", Symbol("N")), ("N", Symbol("M"))];
    assert order[1..] == [("N", Symbol("M"))] && order[1..][1..] == [];
    assert "M" != "N";
    assert order[0] == ("M", swap["M"]) && order[1] == ("N", swap["N"]);
    assert SubstInOrder(Symbol("M"), order) == SubstInOrder(Symbol("N"), order[1..]);
  }

  // ---- the procedures ----

  /** Something that can replace symbols in an expression, one after another in an order of its own. */
  class Holder {
    var expr: Expr

    constructor (e: Expr)
      ensures expr == e
    {
      expr := e;
    }

    method ReplaceUnsafely(m: Mapping) returns (ghost order: seq<(string, Expr)>)
      modifies this
      ensures Lists(order, m) && expr == SubstInOrder(old(expr), order)
    {
      order := [];
      var todo := m.Keys;
      while todo != {}
        invariant todo <= m.Keys
        invariant Lists(order, m - todo)
        invariant expr == SubstInOrder(old(expr), order)
        decreases todo
      {
        var k :| k in todo;
        ListsSnoc(order, m - todo, k, m[k]);
        OrderSnoc(old(expr), order, k, m[k]);
        assert (m - todo)[k := m[k]] == m - (todo - {k});
        expr := Subst(expr, map[k := m[k]]);
        order := order + [(k, m[k])];
        todo := todo - {k};
      }
      assert m - {} == m;
    }
  }

  lemma ListsSnoc(order: seq<(string, Expr)>, m: Mapping, k: string, v: Expr)
    requires Lists(order, m) && k !in m
    ensures Lists(order + [(k, v)], m[k := v])
  {
    var order', m' := order + [(k, v)], m[k := v];
    forall l | l in m' ensures (l, m'[l]) in order' {
      if l != k {
        assert (l, m[l]) in order;
      } else {
        assert order'[|order|] == (k, v);
      }
    }
  }

  lemma {:induction false} OrderSnoc(e: Expr, order: seq<(string, Expr)>, k: string, v: Expr)
    ensures SubstInOrder(e, order + [(k, v)]) == Subst(SubstInOrder(e, order), map[k := v])
    decreases |order|
  {
    if order == [] {
      assert ([(k, v)])[1..] == [];
    } else {
      assert (order + [(k, v)])[1..] == order[1..] + [(k, v)];
      OrderSnoc(Subst(e, map[order[0].0 := order[0].1]), order[1..], k, v);
    }
  }

  predicate IsConstant(e: Expr) {
    e.Number? || e.Literal?
  }

  /** Constants and non-symbolic values are replaced directly, the rest through fresh names. */
  function DirectKeys(mapping: Mapping): set<string> {
    set k | k in mapping && IsConstant(mapping[k])
  }

  /** The keys replaced directly are those of numbers and of values that are no expressions: no substitution
      changes these, whatever it maps, and they apply no operation. */
  lemma DirectIff(mapping: Mapping, k: string)
    ensures k in DirectKeys(mapping) <==> k in mapping && !mapping[k].Apply? && forall m :: Subst(mapping[k], m) == mapping[k]
  {
    if k in mapping && mapping[k].Symbol? {
      assert Subst(mapping[k], map[mapping[k].name := Number(0)]) != mapping[k];
    }
  }

  /** Builds both dictionaries entry by entry and applies them one after the other. */
  method SafeReplace(mapping: Mapping, holder: Holder)
    modifies holder
    ensures IsTwoStep(old(holder.expr), mapping, DirectKeys(mapping), holder.expr)
    ensures Clean(mapping) && (forall s :: s in Symbols(old(holder.expr)) ==> !Reserved(s))
            ==> holder.expr == Subst(old(holder.expr), mapping)
  {
    ghost var e, direct := holder.expr, DirectKeys(mapping);
    var repl, invrepl := BuildDictionaries(mapping, true);
    ghost var first, second: seq<(string, Expr)> := [], [];
    if |repl| == 0 {
      assert repl == map[];
      NothingToInvert(mapping, direct);
    } else {
      first := holder.ReplaceUnsafely(repl);
      if |invrepl| == 0 {
        assert invrepl == map[];
      } else {
        second := holder.ReplaceUnsafely(invrepl);
      }
    }
    assert Lists(first, ToFresh(mapping, direct)) && Lists(second, FromFresh(mapping, direct));
    if Clean(mapping) && forall s :: s in Symbols(e) ==> !Reserved(s) {
      TwoStepIsSimultaneous(e, mapping, direct, holder.expr);
    }
  }

  lemma NothingToInvert(mapping: Mapping, direct: set<string>)
    requires ToFresh(mapping, direct) == map[]
    ensures FromFresh(mapping, direct) == map[]
  {
    forall k | k in mapping ensures !Proper(mapping, k) {
      assert k !in ToFresh(mapping, direct);
    }
    assert FromFresh(mapping, direct).Keys == {};
  }

  /** The loop over the mapping; `constantsDirectly` tells the general routine from the memlet's. */
  method BuildDictionaries(mapping: Mapping, constantsDirectly: bool) returns (repl: Mapping, invrepl: Mapping)
    ensures var direct := if constantsDirectly then DirectKeys(mapping) else {};
            repl == ToFresh(mapping, direct) && invrepl == FromFresh(mapping, direct)
  {
    ghost var direct := if constantsDirectly then DirectKeys(mapping) else {};
    repl, invrepl := map[], map[];
    var todo := mapping.Keys;
    while todo != {}
      invariant todo <= mapping.Keys
      invariant repl == ToFresh(mapping - todo, direct) && invrepl == FromFresh(mapping - todo, direct)
      decreases todo
    {
      var k :| k in todo;
      var v := mapping[k];
      DictionariesStep(mapping, direct, todo, k);
      if v != Symbol(k) {
        if constantsDirectly && IsConstant(v) {
          repl := repl[k := v];
        } else {
          repl := repl[k := Symbol(Fresh(k))];
          invrepl := invrepl[Fresh(k) := v];
        }
      }
      todo := todo - {k};
    }
    assert mapping - {} == mapping;
  }

  lemma DictionariesStep(mapping: Mapping, direct: set<string>, todo: set<string>, k: string)
    requires k in todo && todo <= mapping.Keys
    ensures ToFresh(mapping - (todo - {k}), direct) ==
            if mapping[k] == Symbol(k) then ToFresh(mapping - todo, direct)
            else ToFresh(mapping - todo, direct)[k := if k in direct then mapping[k] else Symbol(Fresh(k))]
    ensures FromFresh(mapping - (todo - {k}), direct) ==
            if mapping[k] == Symbol(k) || k in direct then FromFresh(mapping - todo, direct)
            else FromFresh(mapping - todo, direct)[Fresh(k) := mapping[k]]
  {
    assert mapping - (todo - {k}) == (mapping - todo)[k := mapping[k]];
    ToFreshStep(mapping - todo, direct, k, mapping[k]);
    FromFreshStep(mapping - todo, direct, k, mapping[k]);
  }

  lemma ToFreshStep(m: Mapping, direct: set<string>, k: string, v: Expr)
    requires k !in m
    ensures ToFresh(m[k := v], direct) ==
            if v == Symbol(k) then ToFresh(m, direct)
            else ToFresh(m, direct)[k := if k in direct then v else Symbol(Fresh(k))]
  {
  }

  lemma FromFreshStep(m: Mapping, direct: set<string>, k: string, v: Expr)
    requires k !in m
    ensures FromFresh(m[k := v], direct) ==
            if v == Symbol(k) || k in direct then FromFresh(m, direct) else FromFresh(m, direct)[Fresh(k) := v]
  {
    hide Fresh;
    var from, from' := FromFresh(m, direct), FromFresh(m[k := v], direct);
    var expected := if v == Symbol(k) || k in direct then from else from[Fresh(k) := v];
    forall f | f in from' ensures f in expected && from'[f] == expected[f] {
      var l :| l in m[k := v] && Proper(m[k := v], l) && l !in direct && f == Fresh(l);
      FreshValue(m[k := v], direct, l);
      if l != k {
        FreshValue(m, direct, l);
        FreshDistinct(l, k);
      }
    }
    forall f | f in expected ensures f in from' {
      if f in from {
        var l :| l in m && Proper(m, l) && l !in direct && f == Fresh(l);
        FreshValue(m[k := v], direct, l);
      } else {
        FreshValue(m[k := v], direct, k);
      }
    }
  }

  lemma FreshDistinct(k: string, l: string)
    requires k != l
    ensures Fresh(k) != Fresh(l)
  {
    AllFresh();
  }

  // ---- the memlet ----

  datatype ExprDim = ExprDim(rb: Expr, re: Expr, rs: Expr, tile: Expr)

  function SubstDim(d: ExprDim, m: Mapping): ExprDim {
    ExprDim(Subst(d.rb, m), Subst(d.re, m), Subst(d.rs, m), Subst(d.tile, m))
  }

  function SubstDims(dims: seq<ExprDim>, m: Mapping): (r: seq<ExprDim>)
    ensures |r| == |dims|
  {
    seq(|dims|, i requires 0 <= i < |dims| => SubstDim(dims[i], m))
  }

  function SubstSubset(s: Option<seq<ExprDim>>, m: Mapping): Option<seq<ExprDim>> {
    if s.Some? then Some(SubstDims(s.value, m)) else None
  }

  ghost predicate Unreserved(e: Expr) {
    forall s :: s in Symbols(e) ==> !Reserved(s)
  }

  ghost predicate UnreservedSubset(s: Option<seq<ExprDim>>) {
    s.Some? ==> forall i :: 0 <= i < |s.value| ==>
      Unreserved(s.value[i].rb) && Unreserved(s.value[i].re) && Unreserved(s.value[i].rs) && Unreserved(s.value[i].tile)
  }

  /** What replacing through both dictionaries can make of an expression, in some orders; expressions
      without symbols are left. */
  ghost predicate ReplacedBy(e: Expr, mapping: Mapping, r: Expr) {
    if Symbols(e) == {} then r == e else IsTwoStep(e, mapping, {}, r)
  }

  ghost predicate DimReplacedBy(d: ExprDim, mapping: Mapping, r: ExprDim) {
    && ReplacedBy(d.rb, mapping, r.rb) && ReplacedBy(d.re, mapping, r.re)
    && ReplacedBy(d.rs, mapping, r.rs) && ReplacedBy(d.tile, mapping, r.tile)
  }

  ghost predicate SubsetReplacedBy(s: Option<seq<ExprDim>>, mapping: Mapping, r: Option<seq<ExprDim>>) {
    if s.None? || r.None? then s.None? && r.None?
    else |r.value| == |s.value| && forall i :: 0 <= i < |s.value| ==> DimReplacedBy(s.value[i], mapping, r.value[i])
  }

  /** It is the simultaneous substitution exactly when the expression contains none of the fresh names. */
  lemma ReplacedIsSimultaneousIff(e: Expr, mapping: Mapping, r: Expr)
    requires Unmixed(mapping, {}) && ReplacedBy(e, mapping, r)
    ensures r == Subst(e, mapping) <==> Symbols(e) !! FromFresh(mapping, {}).Keys
  {
    if Symbols(e) == {} {
      SubstNothing(e, mapping);
    } else {
      TwoStepIsSimultaneousIff(e, mapping, {}, r);
    }
  }

  /** Nothing to replace: an expression is left as it is. */
  lemma NothingReplaced(e: Expr, mapping: Mapping)
    requires ToFresh(mapping, {}) == map[]
    ensures ReplacedBy(e, mapping, e)
  {
    NothingToInvert(mapping, {});
    var none: seq<(string, Expr)> := [];
    assert Lists(none, ToFresh(mapping, {})) && Lists(none, FromFresh(mapping, {}));
    assert e == SubstInOrder(SubstInOrder(e, none), none);
  }

  lemma SubsetNotReplaced(s: Option<seq<ExprDim>>, mapping: Mapping)
    requires ToFresh(mapping, {}) == map[]
    ensures SubsetReplacedBy(s, mapping, s)
  {
    forall e ensures ReplacedBy(e, mapping, e) {
      NothingReplaced(e, mapping);
    }
  }

  /** Replaces in one expression through both dictionaries. */
  method ReplaceThroughFresh(e: Expr, repl: Mapping, invrepl: Mapping, ghost mapping: Mapping) returns (r: Expr)
    requires repl == ToFresh(mapping, {}) && invrepl == FromFresh(mapping, {})
    ensures ReplacedBy(e, mapping, r)
    ensures Clean(mapping) && Unreserved(e) ==> r == Subst(e, mapping)
  {
    if Symbols(e) == {} {
      SubstNothing(e, mapping);
      return e;
    }
    var h := new Holder(e);
    ghost var first := h.ReplaceUnsafely(repl);
    ghost var second := h.ReplaceUnsafely(invrepl);
    assert IsTwoStep(e, mapping, {}, h.expr);
    if Clean(mapping) && Unreserved(e) {
      TwoStepIsSimultaneous(e, mapping, {}, h.expr);
    }
    r := h.expr;
  }

  method ReplaceInSubset(s: Option<seq<ExprDim>>, repl: Mapping, invrepl: Mapping, ghost mapping: Mapping)
    returns (r: Option<seq<ExprDim>>)
    requires repl == ToFresh(mapping, {}) && invrepl == FromFresh(mapping, {})
    ensures SubsetReplacedBy(s, mapping, r)
    ensures Clean(mapping) && UnreservedSubset(s) ==> r == SubstSubset(s, mapping)
  {
    hide ReplacedBy;
    if s.None? {
      return None;
    }
    var dims := [];
    for i := 0 to |s.value|
      invariant |dims| == i && forall j :: 0 <= j < i ==> DimReplacedBy(s.value[j], mapping, dims[j])
      invariant Clean(mapping) && UnreservedSubset(s) ==> forall j :: 0 <= j < i ==> dims[j] == SubstDim(s.value[j], mapping)
    {
      var d := s.value[i];
      var rb := ReplaceThroughFresh(d.rb, repl, invrepl, mapping);
      var re := ReplaceThroughFresh(d.re, repl, invrepl, mapping);
      var rs := ReplaceThroughFresh(d.rs, repl, invrepl, mapping);
      var tile := ReplaceThroughFresh(d.tile, repl, invrepl, mapping);
      dims := dims + [ExprDim(rb, re, rs, tile)];
    }
    r := Some(dims);
    assert Clean(mapping) && UnreservedSubset(s) ==> dims == SubstDims(s.value, mapping);
  }

  class Memlet {
    var volume: Option<Expr>
    var subset: Option<seq<ExprDim>>
    var otherSubset: Option<seq<ExprDim>>

    constructor (volume: Option<Expr>, subset: Option<seq<ExprDim>>, otherSubset: Option<seq<ExprDim>>)
      ensures this.volume == volume && this.subset == subset && this.otherSubset == otherSubset
    {
      this.volume, this.subset, this.otherSubset := volume, subset, otherSubset;
    }

    /** Substitutes in the volume and in both subsets. */
    method Replace(mapping: Mapping)
      modifies this
      ensures if old(volume).None? then volume.None?
              else volume.Some? && ReplacedBy(old(volume).value, mapping, volume.value)
      ensures SubsetReplacedBy(old(subset), mapping, subset) && SubsetReplacedBy(old(otherSubset), mapping, otherSubset)
      ensures Clean(mapping) && (old(volume).Some? ==> Unreserved(old(volume).value))
              && UnreservedSubset(old(subset)) && UnreservedSubset(old(otherSubset)) ==>
                && volume == (if old(volume).Some? then Some(Subst(old(volume).value, mapping)) else None)
                && subset == SubstSubset(old(subset), mapping)
                && otherSubset == SubstSubset(old(otherSubset), mapping)
    {
      var repl, invrepl := BuildDictionaries(mapping, false);
      if |repl| > 0 {
        if volume.Some? {
          var v := ReplaceThroughFresh(volume.value, repl, invrepl, mapping);
          volume := Some(v);
        }
        subset := ReplaceInSubset(subset, repl, invrepl, mapping);
        otherSubset := ReplaceInSubset(otherSubset, repl, invrepl, mapping);
      } else {
        assert repl == map[];
        if volume.Some? {
          NothingReplaced(volume.value, mapping);
        }
        SubsetNotReplaced(subset, mapping);
        SubsetNotReplaced(otherSubset, mapping);
        IdentityMapping(mapping);
        SubsetUnchanged(subset, mapping);
        SubsetUnchanged(otherSubset, mapping);
      }
    }
  }

  lemma {:induction false} IdentitySubst(e: Expr, mapping: Mapping)
    requires forall k :: k in mapping ==> mapping[k] == Symbol(k)
    ensures Subst(e, mapping) == e
  {
    if e.Apply? {
      forall i | 0 <= i < |e.args| ensures Subst(e.args[i], mapping) == e.args[i] {
        IdentitySubst(e.args[i], mapping);
      }
      assert Subst(e, mapping).args == e.args;
    }
  }

  lemma IdentityMapping(mapping: Mapping)
    requires ToFresh(mapping, {}) == map[]
    ensures forall k :: k in mapping ==> mapping[k] == Symbol(k)
    ensures forall e :: Subst(e, mapping) == e
  {
    forall k | k in mapping ensures mapping[k] == Symbol(k) {
      assert k !in ToFresh(mapping, {});
    }
    forall e ensures Subst(e, mapping) == e {
      IdentitySubst(e, mapping);
    }
  }

  lemma SubsetUnchanged(s: Option<seq<ExprDim>>, mapping: Mapping)
    requires forall e :: Subst(e, mapping) == e
    ensures SubstSubset(s, mapping) == s
  {
    if s.Some? {
      assert SubstDims(s.value, mapping) == s.value;
    }
  }
}
