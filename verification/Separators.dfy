/**
 Which commas of a text separate dimensions, by their position in the whole text. The tokenizer
 starts counting parentheses afresh after every colon.
 */
module Separators {
  import opened RangeText

  /** Open parentheses minus closed ones after the last colon. */
  function SinceColon(s: string): int {
    if s == "" || s[|s| - 1] == ':' then 0 else SinceColon(s[..|s| - 1]) + Nesting(s[|s| - 1])
  }

  /** The depth at the last colon; zero if there is none. */
  function DepthAtLastColon(s: string): int {
    if s == "" then 0
    else if s[|s| - 1] == ':' then Depth(s[..|s| - 1])
    else DepthAtLastColon(s[..|s| - 1])
  }

  /** Some item ends at position i with the given separator. */
  predicate EndsAt(items: seq<Item>, colon: bool, i: nat)
    decreases |items|
  {
    if items == [] then false
    else
      var n := |items[0].token|;
      if i <= n then i == n && items[0].colon == colon else EndsAt(items[1..], colon, i - n - 1)
  }

  /** The tokens and separators of s. */
  ghost predicate IsSplit(s: string, items: seq<Item>) {
    AllItems(items) && Text(items) == s + ":"
  }

  lemma {:induction false} DepthIsSum(s: string)
    ensures Depth(s) == DepthAtLastColon(s) + SinceColon(s)
  {
    if s != "" {
      DepthIsSum(s[..|s| - 1]);
    }
  }

  lemma {:induction false} SinceColonAppend(a: string, b: string)
    ensures SinceColon(a + b) == if ':' in b then SinceColon(b) else SinceColon(a) + Depth(b)
  {
    if b == "" {
      assert a + b == a;
    } else {
      var init := b[..|b| - 1];
      assert (a + b)[..|a + b| - 1] == a + init && (a + b)[|a + b| - 1] == b[|b| - 1];
      assert b == init + [b[|b| - 1]];
      SinceColonAppend(a, init);
    }
  }

  lemma NoColon(s: string)
    requires ':' !in s
    ensures SinceColon(s) == Depth(s)
  {
    SinceColonAppend("", s);
    assert "" + s == s;
  }

  /** Behind a separator the count starts from zero again. */
  lemma RestartsAfter(x: Item, rest: string)
    requires IsItem(x)
    ensures SinceColon(x.token + [Separator(x)] + rest) == SinceColon(rest)
  {
    var head := x.token + [Separator(x)];
    assert head[..|head| - 1] == x.token;
    NoColon(x.token);
    SinceColonAppend(head, rest);
    if ':' !in rest {
      NoColon(rest);
    }
  }

  lemma InsideFirst(x: Item, i: nat)
    requires IsItem(x) && i <= |x.token|
    ensures SinceColon(x.token[..i]) == Depth(x.token[..i])
  {
    NoColon(x.token[..i]);
  }

  /** The first item's text and the rest of a text, around position i. */
  lemma AroundFirst(items: seq<Item>, i: nat)
    requires items != [] && i < |Text(items)|
    ensures var s, x, n, rest := Text(items), items[0], |items[0].token|, Text(items[1..]);
            && (i < n ==> s[i] == x.token[i]) && (i == n ==> s[i] == Separator(x))
            && (i <= n ==> s[..i] == x.token[..i])
            && (i > n ==> i - n - 1 < |rest| && s[i] == rest[i - n - 1]
                          && s[..i] == x.token + [Separator(x)] + rest[..i - n - 1])
  {
    AroundCut(items[0].token, Separator(items[0]), Text(items[1..]), i);
  }

  lemma AroundCut(t: string, c: char, rest: string, i: nat)
    requires i < |t + ([c] + rest)|
    ensures var s, n := t + ([c] + rest), |t|;
            && (i < n ==> s[i] == t[i]) && (i == n ==> s[i] == c)
            && (i <= n ==> s[..i] == t[..i])
            && (i > n ==> i - n - 1 < |rest| && s[i] == rest[i - n - 1] && s[..i] == t + [c] + rest[..i - n - 1])
  {
  }

  /** Every colon separates. A comma separates exactly when the parentheses since the last colon
      are balanced. */
  lemma {:induction false} SeparatorsOf(items: seq<Item>, i: nat)
    requires AllItems(items) && i < |Text(items)|
    ensures EndsAt(items, true, i) <==> Text(items)[i] == ':'
    ensures EndsAt(items, false, i) <==> Text(items)[i] == ',' && SinceColon(Text(items)[..i]) == 0
    decreases |items|
  {
    hide Text, SinceColon;
    if items == [] {
      assert Text(items) == "" by { EmptyOrNot(items); }
    } else {
      var x, n := items[0], |items[0].token|;
      AroundFirst(items, i);
      if i <= n {
        InsideFirst(x, i);
        assert i == n ==> x.token[..i] == x.token;
      } else {
        SeparatorsOf(items[1..], i - n - 1);
        RestartsAfter(x, Text(items[1..])[..i - n - 1]);
      }
    }
  }

  /** The separating commas of s, by what stands before them. */
  lemma SeparatingCommas(s: string, items: seq<Item>, i: nat)
    requires IsSplit(s, items) && i < |s|
    ensures EndsAt(items, true, i) <==> s[i] == ':'
    ensures EndsAt(items, false, i) <==> s[i] == ',' && Depth(s[..i]) == DepthAtLastColon(s[..i])
  {
    SeparatorsOf(items, i);
    assert (s + ":")[..i] == s[..i];
    DepthIsSum(s[..i]);
  }

  // ---- exactly when splitting respects parentheses ----

  /** Commas separate exactly where no parenthesis of the whole text is open. */
  ghost predicate RespectsParentheses(s: string, items: seq<Item>) {
    forall i :: 0 <= i < |s| && s[i] == ',' ==> (EndsAt(items, false, i) <==> Depth(s[..i]) == 0)
  }

  /** No comma behind a colon at depth d stands at depth 0 or d, unless d is 0. */
  predicate HarmlessColons(s: string) {
    forall i :: 0 <= i < |s| && s[i] == ',' ==>
      DepthAtLastColon(s[..i]) == 0 || (Depth(s[..i]) != 0 && Depth(s[..i]) != DepthAtLastColon(s[..i]))
  }

  /** Splitting respects parentheses exactly when the colons of the text are harmless. */
  lemma RespectsParenthesesIff(s: string, items: seq<Item>)
    requires IsSplit(s, items)
    ensures RespectsParentheses(s, items) <==> HarmlessColons(s)
  {
    hide EndsAt, Depth, DepthAtLastColon;
    forall i: nat | i < |s| && s[i] == ','
      ensures EndsAt(items, false, i) <==> Depth(s[..i]) == DepthAtLastColon(s[..i])
    {
      SeparatingCommas(s, items, i);
    }
  }

  lemma {:induction false} OutsideColons(s: string)
    requires forall q :: 0 <= q < |s| && s[q] == ':' ==> Depth(s[..q]) == 0
    ensures DepthAtLastColon(s) == 0
  {
    if s != "" {
      var init := s[..|s| - 1];
      forall q | 0 <= q < |init| && init[q] == ':' ensures Depth(init[..q]) == 0 {
        assert init[..q] == s[..q];
      }
      OutsideColons(init);
    }
  }

  /** In particular it does when every colon stands outside parentheses. */
  lemma ColonsOutsideAreHarmless(s: string)
    requires forall q :: 0 <= q < |s| && s[q] == ':' ==> Depth(s[..q]) == 0
    ensures HarmlessColons(s)
  {
    forall i | 0 <= i < |s| ensures DepthAtLastColon(s[..i]) == 0 {
      forall q | 0 <= q < i && s[..i][q] == ':' ensures Depth(s[..i][..q]) == 0 {
        assert s[..i][..q] == s[..q];
      }
      OutsideColons(s[..i]);
    }
  }

  lemma DepthSnoc(s: string, c: char)
    ensures Depth(s + [c]) == Depth(s) + Nesting(c)
    ensures DepthAtLastColon(s + [c]) == if c == ':' then Depth(s) else DepthAtLastColon(s)
  {
    assert (s + [c])[..|s + [c]| - 1] == s;
  }

  /** A comma inside parentheses that is cut: (a:b,c) becomes two dimensions. */
  lemma CommaInParenthesesCut()
    ensures var s := "(a:b,c)";
            && SplitsInto(s, [["(a", "b"], ["c)"]])
            && s[4] == ',' && Depth(s[..4]) == 1 && !HarmlessColons(s)
  {
    var s := "(a:b,c)";
    var x, y, z := Item("(a", true), Item("b", false), Item("c)", true);
    var items := [x, y, z];
    assert s[..4] == "(a:b";
    DepthSnoc("", '(');
    DepthSnoc("(", 'a');
    DepthSnoc("(a", ':');
    DepthSnoc("(a:", 'b');
    DepthSnoc("", 'b');
    assert "" + ['('] == "(" && "(" + ['a'] == "(a" && "(a" + [':'] == "(a:" && "(a:" + ['b'] == "(a:b" && "" + ['b'] == "b";
    assert AllItems(items);
    assert items[1..] == [y, z] && [y, z][1..] == [z];
    TextOne(z);
    assert Text(items) == s + ":";
    ExampleGroups(items);
  }

  lemma ExampleGroups(items: seq<Item>)
    requires items == [Item("(a", true), Item("b", false), Item("c)", true)]
    ensures Dimensions(items) == [["(a", "b"], ["c)"]]
  {
    var none: seq<seq<string>> := [];
    var g0, g1 := Groups([], []), Groups([], ["(a"]);
    var g2, g3 := Groups([["(a", "b"]], []), Groups([["(a", "b"]], ["c)"]);
    assert g0.open + ["(a"] == ["(a"] && ["(a"] + ["b"] == ["(a", "b"] && none + [["(a", "b"]] == [["(a", "b"]];
    assert Add(g0, items[0]) == g1 && Add(g1, items[1]) == g2;
    assert g2.open + ["c)"] == ["c)"];
    assert Add(g2, items[2]) == g3;
    assert items[1..][1..] == items[2..] && items[2..][1..] == [];
    assert AddAll(g1, items[1..]) == AddAll(g2, items[2..]) == g3;
    assert g3.dims + [g3.open] == [["(a", "b"], ["c)"]];
  }
}
