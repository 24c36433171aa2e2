/**
 Ranges as text: printing, splitting text at colons and commas, and parsing back.
 Bounds are integers; tokens that are not integers are symbolic and make parsing give up here.
 */
module RangeText {
  import opened Basics

  // ---- integers ----

  function DigitChar(d: int): char
    requires 0 <= d < 10
  {
    ('0' as int + d) as char
  }

  function Digits(n: nat): (s: string)
    ensures |s| > 0
    ensures forall i :: 0 <= i < |s| ==> '0' <= s[i] <= '9'
  {
    if n < 10 then [DigitChar(n)] else Digits(n / 10) + [DigitChar(n % 10)]
  }

  function Str(i: int): string {
    if i < 0 then "-" + Digits(-i) else Digits(i)
  }

  predicate AllDigits(s: string) {
    |s| > 0 && forall i :: 0 <= i < |s| ==> '0' <= s[i] <= '9'
  }

  function NatValue(s: string): int
    requires forall i :: 0 <= i < |s| ==> '0' <= s[i] <= '9'
  {
    if s == "" then 0 else NatValue(s[..|s| - 1]) * 10 + (s[|s| - 1] as int - '0' as int)
  }

  function StripLeft(s: string): string {
    if s != "" && s[0] == ' ' then StripLeft(s[1..]) else s
  }

  function StripRight(s: string): string {
    if s != "" && s[|s| - 1] == ' ' then StripRight(s[..|s| - 1]) else s
  }

  function Unsigned(s: string): Option<int> {
    if AllDigits(s) then Some(NatValue(s)) else None
  }

  function Negated(v: Option<int>): Option<int> {
    if v.Some? then Some(-v.value) else None
  }

  function Signed(s: string): Option<int> {
    if s != "" && s[0] == '-' then Negated(Unsigned(s[1..]))
    else if s != "" && s[0] == '+' then Unsigned(s[1..])
    else Unsigned(s)
  }

  /** Decimal integers, optionally signed and surrounded by blanks. */
  function ParseInt(text: string): Option<int> {
    Signed(StripRight(StripLeft(text)))
  }

  lemma {:induction false} NatRoundTrip(n: nat)
    ensures NatValue(Digits(n)) == n
  {
    var s := Digits(n);
    if n < 10 {
      assert s[..|s| - 1] == "";
    } else {
      NatRoundTrip(n / 10);
      assert s[..|s| - 1] == Digits(n / 10);
    }
  }

  lemma SignedRoundTrip(i: int)
    ensures Signed(Str(i)) == Some(i)
  {
    hide NatValue, Digits;
    var s := Str(i);
    if i < 0 {
      NatRoundTrip(-i);
      assert s[1..] == Digits(-i);
    } else {
      NatRoundTrip(i);
    }
  }

  lemma NoBlanks(i: int)
    ensures StripRight(StripLeft(Str(i))) == Str(i) && StripRight(StripLeft(" " + Str(i))) == Str(i)
  {
    var s := Str(i);
    assert s[0] != ' ' && s[|s| - 1] != ' ';
    assert (" " + s)[1..] == s;
  }

  lemma IntRoundTrip(i: int, lead: string)
    requires lead == "" || lead == " "
    ensures ParseInt(lead + Str(i)) == Some(i)
  {
    assert "" + Str(i) == Str(i);
    NoBlanks(i);
    SignedRoundTrip(i);
  }

  // ---- which texts are integers ----

  predicate Blank(s: string) {
    forall i :: 0 <= i < |s| ==> s[i] == ' '
  }

  /** Digits with an optional sign, between blanks, of value v. */
  ghost predicate Spells(text: string, before: string, sign: string, digits: string, after: string, v: int) {
    && text == before + (sign + digits) + after && Blank(before) && Blank(after)
    && (sign == "" || sign == "+" || sign == "-") && AllDigits(digits)
    && v == if sign == "-" then -NatValue(digits) else NatValue(digits)
  }

  lemma {:induction false} StripLeftSplits(s: string) returns (before: string)
    ensures s == before + StripLeft(s) && Blank(before)
  {
    before := "";
    if s != "" && s[0] == ' ' {
      before := StripLeftSplits(s[1..]);
      before := " " + before;
    }
  }

  lemma {:induction false} StripRightSplits(s: string) returns (after: string)
    ensures s == StripRight(s) + after && Blank(after)
  {
    after := "";
    if s != "" && s[|s| - 1] == ' ' {
      after := StripRightSplits(s[..|s| - 1]);
      after := after + " ";
    }
  }

  lemma {:induction false} StripsLeft(before: string, s: string)
    requires Blank(before) && s != "" && s[0] != ' '
    ensures StripLeft(before + s) == s
  {
    if before == "" {
      assert before + s == s;
    } else {
      StripsLeft(before[1..], s);
      assert (before + s)[1..] == before[1..] + s;
    }
  }

  lemma {:induction false} StripsRight(s: string, after: string)
    requires Blank(after) && s != "" && s[|s| - 1] != ' '
    ensures StripRight(s + after) == s
  {
    if after == "" {
      assert s + after == s;
    } else {
      var n := |after| - 1;
      StripsRight(s, after[..n]);
      assert (s + after)[..|s + after| - 1] == s + after[..n];
    }
  }

  lemma SignedIs(sign: string, digits: string)
    requires (sign == "" || sign == "+" || sign == "-") && AllDigits(digits)
    ensures Signed(sign + digits) == Some(if sign == "-" then -NatValue(digits) else NatValue(digits))
  {
    if sign == "" {
      assert sign + digits == digits;
    } else {
      assert (sign + digits)[1..] == digits;
    }
  }

  lemma ReadIsSpelled(text: string, v: int) returns (before: string, sign: string, digits: string, after: string)
    requires ParseInt(text) == Some(v)
    ensures Spells(text, before, sign, digits, after, v)
  {
    var left := StripLeft(text);
    before := StripLeftSplits(text);
    after := StripRightSplits(left);
    var core := StripRight(left);
    sign := if core[0] == '-' || core[0] == '+' then core[..1] else "";
    digits := core[|sign|..];
    assert core == sign + digits;
    assert text == before + (sign + digits) + after;
  }

  /** A text is read as an integer exactly when it is one: digits with an optional sign, blanks around. */
  lemma ParseIntIff(text: string, v: int)
    ensures ParseInt(text) == Some(v) <==> exists before, sign, digits, after :: Spells(text, before, sign, digits, after, v)
  {
    hide StripLeft, StripRight, Signed, NatValue;
    if ParseInt(text) == Some(v) {
      var before, sign, digits, after := ReadIsSpelled(text, v);
    }
    if before, sign, digits, after :| Spells(text, before, sign, digits, after, v) {
      var core := sign + digits;
      assert core[|core| - 1] == digits[|digits| - 1];
      StripsRight(core, after);
      assert text == before + (core + after);
      StripsLeft(before, core + after);
      SignedIs(sign, digits);
    }
  }

  // ---- tokens ----

  /** What a character adds to the number of open parentheses. */
  function Nesting(c: char): int {
    if c == '(' then 1 else if c == ')' then -1 else 0
  }

  /** Open parentheses minus closed ones. */
  function Depth(s: string): int {
    if s == "" then 0 else Depth(s[..|s| - 1]) + Nesting(s[|s| - 1])
  }

  /** The text goes on in the same token: no colon, and commas only where the parentheses of the
      token itself are not balanced. (Parentheses before the token do not count.) */
  ghost predicate IsToken(t: string) {
    forall i :: 0 <= i < |t| ==> t[i] != ':' && (t[i] == ',' ==> Depth(t[..i]) != 0)
  }

  /** A token with the separator after it: a colon, or a comma that ends the dimension. */
  datatype Item = Item(token: string, colon: bool)

  function Separator(x: Item): char {
    if x.colon then ':' else ','
  }

  /** The text of the items, each followed by its separator. */
  function Text(items: seq<Item>): string {
    if items == [] then "" else items[0].token + ([Separator(items[0])] + Text(items[1..]))
  }

  /** Tokens are tokens, and the parentheses of a token that ends with a comma are balanced. */
  ghost predicate IsItem(x: Item) {
    IsToken(x.token) && (!x.colon ==> Depth(x.token) == 0)
  }

  ghost predicate AllItems(items: seq<Item>) {
    forall k :: 0 <= k < |items| ==> IsItem(items[k])
  }

  lemma {:induction false} TextAppend(a: seq<Item>, b: seq<Item>)
    ensures Text(a + b) == Text(a) + Text(b)
  {
    if a == [] {
      assert a + b == b;
    } else {
      assert (a + b)[1..] == a[1..] + b;
      TextAppend(a[1..], b);
      var sep := [Separator(a[0])];
      assert sep + (Text(a[1..]) + Text(b)) == (sep + Text(a[1..])) + Text(b);
    }
  }

  lemma TextOne(x: Item)
    ensures Text([x]) == x.token + [Separator(x)]
  {
    assert [x][1..] == [];
    assert [Separator(x)] + "" == [Separator(x)];
  }

  /** The first separator can stand at position n: a colon, or a comma after balanced parentheses. */
  predicate Cuts(s: string, n: nat)
    requires n < |s|
  {
    s[n] == ':' || (s[n] == ',' && Depth(s[..n]) == 0)
  }

  lemma ItemCuts(s: string, x: Item)
    requires IsItem(x) && |x.token| < |s| && s[..|x.token|] == x.token && s[|x.token|] == Separator(x)
    ensures Cuts(s, |x.token|)
  {
  }

  lemma InsideDoesNotCut(s: string, t: string, n: nat)
    requires IsToken(t) && n < |t| < |s| && s[..|t|] == t
    ensures !Cuts(s, n)
  {
    assert t[n] == s[n] && t[..n] == s[..n];
  }

  /** An item cannot end before, nor after, the first separator of the text. */
  lemma FirstItemLength(s: string, x: Item, y: Item)
    requires IsItem(x) && IsItem(y) && |x.token| < |s| && |y.token| < |s|
    requires s[..|x.token|] == x.token && s[|x.token|] == Separator(x)
    requires s[..|y.token|] == y.token && s[|y.token|] == Separator(y)
    ensures |x.token| >= |y.token|
  {
    ItemCuts(s, x);
    if |x.token| < |y.token| {
      InsideDoesNotCut(s, y.token, |x.token|);
    }
  }

  lemma TextFirst(items: seq<Item>)
    requires items != []
    ensures var s, x := Text(items), items[0];
            && |x.token| < |s| && s[..|x.token|] == x.token && s[|x.token|] == Separator(x)
            && s[|x.token| + 1..] == Text(items[1..])
  {
    CutParts(items[0].token, Separator(items[0]), Text(items[1..]));
  }

  lemma CutParts(t: string, c: char, rest: string)
    ensures var s := t + ([c] + rest); |t| < |s| && s[..|t|] == t && s[|t|] == c && s[|t| + 1..] == rest
  {
    var s := t + ([c] + rest);
    assert s[|t| + 1..] == ([c] + rest)[1..];
  }

  /** A text is cut into items in one way only. */
  lemma {:induction false} ItemsUnique(a: seq<Item>, b: seq<Item>)
    requires AllItems(a) && AllItems(b) && Text(a) == Text(b)
    ensures a == b
    decreases |a|
  {
    if a == [] || b == [] {
      EmptyOrNot(a);
      EmptyOrNot(b);
    } else {
      TextFirst(a);
      TextFirst(b);
      FirstItemLength(Text(a), a[0], b[0]);
      FirstItemLength(Text(a), b[0], a[0]);
      assert a[0] == b[0];
      ItemsUnique(a[1..], b[1..]);
      assert a == [a[0]] + a[1..] && b == [b[0]] + b[1..];
    }
  }

  lemma EmptyOrNot(items: seq<Item>)
    ensures items == [] <==> Text(items) == ""
  {
  }

  // ---- grouping into dimensions ----

  /** Complete dimensions, and the tokens of the one under way. */
  datatype Groups = Groups(dims: seq<seq<string>>, open: seq<string>)

  function Add(g: Groups, x: Item): Groups {
    if x.colon then Groups(g.dims, g.open + [x.token]) else Groups(g.dims + [g.open + [x.token]], [])
  }

  function AddAll(g: Groups, items: seq<Item>): Groups
    decreases |items|
  {
    if items == [] then g else AddAll(Add(g, items[0]), items[1..])
  }

  lemma {:induction false} AddAllAppend(g: Groups, a: seq<Item>, b: seq<Item>)
    ensures AddAll(g, a + b) == AddAll(AddAll(g, a), b)
    decreases |a|
  {
    if a == [] {
      assert a + b == b;
    } else {
      assert (a + b)[1..] == a[1..] + b;
      AddAllAppend(Add(g, a[0]), a[1..], b);
    }
  }

  lemma AddAllSnoc(g: Groups, items: seq<Item>, x: Item)
    ensures AddAll(g, items + [x]) == Add(AddAll(g, items), x)
  {
    AddAllAppend(g, items, [x]);
    assert [x][1..] == [];
  }

  /** The dimensions of a whole text; its last token counts as followed by a colon. */
  function Dimensions(items: seq<Item>): seq<seq<string>> {
    var g := AddAll(Groups([], []), items);
    g.dims + [g.open]
  }

  /** The token lists that a text splits into: at every colon, and at commas before which the
      parentheses opened since the last separator are closed. */
  ghost predicate SplitsInto(s: string, dims: seq<seq<string>>) {
    exists items :: AllItems(items) && Text(items) == s + ":" && dims == Dimensions(items)
  }

  /** There is only one way to split. */
  lemma SplitUnique(s: string, a: seq<seq<string>>, b: seq<seq<string>>)
    requires SplitsInto(s, a) && SplitsInto(s, b)
    ensures a == b
  {
    var items :| AllItems(items) && Text(items) == s + ":" && a == Dimensions(items);
    var others :| AllItems(others) && Text(others) == s + ":" && b == Dimensions(others);
    ItemsUnique(items, others);
  }

  // ---- the tokenizer ----

  /** Pieces each followed by a colon. */
  function Trailing(pieces: seq<string>): string {
    if pieces == [] then "" else pieces[0] + (":" + Trailing(pieces[1..]))
  }

  /** Splitting at every colon. */
  function SplitColons(s: string): (r: seq<string>)
    ensures |r| > 0
    ensures forall k, i :: 0 <= k < |r| && 0 <= i < |r[k]| ==> r[k][i] != ':'
  {
    if s == "" then [""]
    else
      var rest := SplitColons(s[1..]);
      if s[0] == ':' then [""] + rest else [[s[0]] + rest[0]] + rest[1..]
  }

  lemma {:induction false} SplitColonsTrailing(s: string)
    ensures Trailing(SplitColons(s)) == s + ":"
  {
    var r := SplitColons(s);
    if s == "" {
      assert r[1..] == [];
    } else {
      SplitColonsTrailing(s[1..]);
      var rest := SplitColons(s[1..]);
      if s[0] == ':' {
        assert r[1..] == rest;
        assert s == ":" + s[1..];
      } else {
        assert r[0] == [s[0]] + rest[0] && r[1..] == rest[1..];
        var tail := Trailing(rest[1..]);
        assert [s[0]] + rest[0] + (":" + tail) == [s[0]] + (rest[0] + (":" + tail));
        assert [s[0]] + (s[1..] + ":") == s + ":";
      }
    }
  }

  /** One colon-free piece: split at its commas, counting parentheses from the start of the piece. */
  method SplitPiece(piece: string, dims0: seq<seq<string>>, tokens0: seq<string>, ghost items0: seq<Item>)
    returns (dims: seq<seq<string>>, tokens: seq<string>, ghost items: seq<Item>)
    requires forall i :: 0 <= i < |piece| ==> piece[i] != ':'
    requires AllItems(items0) && Groups(dims0, tokens0) == AddAll(Groups([], []), items0)
    ensures AllItems(items) && Groups(dims, tokens) == AddAll(Groups([], []), items)
    ensures Text(items) == Text(items0) + (piece + ":")
  {
    hide Text, IsToken;
    dims, tokens, items := dims0, tokens0, items0;
    var token, i, count := piece, 0, 0;
    EmptyToken(token);
    while i < |token|
      invariant 0 <= i <= |token| && count == Depth(token[..i]) && IsToken(token[..i])
      invariant forall j :: 0 <= j < |token| ==> token[j] != ':'
      invariant AllItems(items) && Groups(dims, tokens) == AddAll(Groups([], []), items)
      invariant Text(items) + token == Text(items0) + piece
      decreases |token| - i
    {
      if token[i] == ',' && count == 0 {
        CutAt(items, token, i, false);
        AddAllSnoc(Groups([], []), items, Item(token[..i], false));
        items := items + [Item(token[..i], false)];
        tokens := tokens + [token[..i]];
        dims := dims + [tokens];
        tokens := [];
        token := token[i + 1..];
        i := 0;
        count := 0;
        EmptyToken(token);
      } else {
        TokenGrows(token, i);
        if token[i] == '(' {
          count := count + 1;
        } else if token[i] == ')' {
          count := count - 1;
        }
        i := i + 1;
      }
    }
    assert token[..i] == token;
    EndPiece(items, token, Text(items0), piece);
    AddAllSnoc(Groups([], []), items, Item(token, true));
    items := items + [Item(token, true)];
    tokens := tokens + [token];
  }

  lemma EmptyToken(token: string)
    ensures IsToken(token[..0]) && Depth(token[..0]) == 0
  {
  }

  lemma CutAt(items: seq<Item>, token: string, i: nat, colon: bool)
    requires i < |token| && token[i] == Separator(Item(token[..i], colon))
    ensures Text(items + [Item(token[..i], colon)]) + token[i + 1..] == Text(items) + token
  {
    var x := Item(token[..i], colon);
    TextAppend(items, [x]);
    TextOne(x);
    Recombine(Text(items), token, i);
  }

  lemma Recombine(before: string, token: string, i: nat)
    requires i < |token|
    ensures before + (token[..i] + [token[i]]) + token[i + 1..] == before + token
  {
    assert token == token[..i] + [token[i]] + token[i + 1..];
  }

  lemma EndPiece(items: seq<Item>, token: string, before: string, piece: string)
    requires Text(items) + token == before + piece
    ensures Text(items + [Item(token, true)]) == before + (piece + ":")
  {
    var x := Item(token, true);
    TextAppend(items, [x]);
    TextOne(x);
    assert Text(items) + (token + ":") == (Text(items) + token) + ":";
    assert before + (piece + ":") == (before + piece) + ":";
  }

  lemma TokenGrows(token: string, i: nat)
    requires i < |token| && token[i] != ':' && IsToken(token[..i]) && (token[i] == ',' ==> Depth(token[..i]) != 0)
    ensures IsToken(token[..i + 1])
    ensures Depth(token[..i + 1]) ==
            Depth(token[..i]) + Nesting(token[i])
  {
    var t := token[..i + 1];
    assert t[..|t| - 1] == token[..i];
    forall j | 0 <= j < |t| ensures t[j] != ':' && (t[j] == ',' ==> Depth(t[..j]) != 0) {
      if j < i {
        assert t[..j] == token[..i][..j] && t[j] == token[..i][j];
      } else {
        assert t[..j] == token[..i];
      }
    }
  }

  /** The tokenizer: splits at every colon first, then each piece at its balanced commas. */
  method Tokenize(s: string) returns (dims: seq<seq<string>>)
    ensures SplitsInto(s, dims)
  {
    var pieces := SplitColons(s);
    dims := [];
    var tokens: seq<string> := [];
    ghost var items: seq<Item> := [];
    SplitColonsTrailing(s);
    for k := 0 to |pieces|
      invariant AllItems(items) && Groups(dims, tokens) == AddAll(Groups([], []), items)
      invariant Text(items) + Trailing(pieces[k..]) == s + ":"
    {
      NextPiece(Text(items), pieces, k);
      dims, tokens, items := SplitPiece(pieces[k], dims, tokens, items);
    }
    assert pieces[|pieces|..] == [];
    dims := dims + [tokens];
  }

  lemma NextPiece(before: string, pieces: seq<string>, k: nat)
    requires k < |pieces|
    ensures before + Trailing(pieces[k..]) == before + (pieces[k] + ":") + Trailing(pieces[k + 1..])
  {
    assert pieces[k..][0] == pieces[k] && pieces[k..][1..] == pieces[k + 1..];
  }

  // ---- parsing ----

  /** Begin, exclusive end and step as a dimension. */
  function MakeDim(begin: Option<int>, end: Option<int>, step: Option<int>): Option<Dim> {
    if begin.None? || step.None? || end.None? then None
    else Some(Dim(begin.value, end.value + (if step.value < 0 then 1 else -1), step.value))
  }

  /** One dimension from its tokens; a fourth token is a tile size. */
  function ParseDim(tokens: seq<string>): Option<Dim> {
    if |tokens| == 0 || |tokens| > 4 then None
    else if |tokens| == 1 then
      var v := ParseInt(tokens[0]);
      if v.None? then None else Some(Dim(v.value, v.value, 1))
    else
      MakeDim(ParseInt(tokens[0]), ParseInt(tokens[1]), if |tokens| >= 3 then ParseInt(tokens[2]) else Some(1))
  }

  function Append(done: seq<Dim>, rest: Option<seq<Dim>>): Option<seq<Dim>> {
    if rest.None? then None else Some(done + rest.value)
  }

  function ParseDims(dims: seq<seq<string>>): Option<seq<Dim>> {
    if dims == [] then Some([])
    else
      var first := ParseDim(dims[0]);
      if first.None? then None else Append([first.value], ParseDims(dims[1..]))
  }

  /** One to four tokens of which the first three are integers make a dimension; a fourth only sets the tile.
      One token is a single index. Otherwise the second token is the end, which is not included in the
      direction of the step, and the step is one when it is missing. */
  lemma DimensionOfTokens(tokens: seq<string>, x: int)
    ensures var d := ParseDim(tokens);
            && (d.Some? <==> 1 <= |tokens| <= 4 && forall k :: 0 <= k < |tokens| && k < 3 ==> ParseInt(tokens[k]).Some?)
            && (d.Some? ==> ParseInt(tokens[0]) == Some(d.value.rb)
                            && ParseInt(if |tokens| < 3 then "1" else tokens[2]) == Some(d.value.rs))
            && (d.Some? && |tokens| == 1 ==> (d.value.rb <= x <= d.value.re <==> x == d.value.rb))
            && (d.Some? && |tokens| > 1 ==>
                  && ParseInt(tokens[1]).Some?
                  && (d.value.rs < 0 ==> (x >= d.value.re <==> x > ParseInt(tokens[1]).value))
                  && (d.value.rs >= 0 ==> (x <= d.value.re <==> x < ParseInt(tokens[1]).value)))
  {
    IntRoundTrip(1, "");
    assert Str(1) == "1" && "" + "1" == "1";
  }

  /** A range is read exactly when all its dimensions are, and each is what its tokens say. */
  lemma {:induction false} DimensionByDimension(dims: seq<seq<string>>)
    ensures ParseDims(dims).Some? <==> forall k :: 0 <= k < |dims| ==> ParseDim(dims[k]).Some?
    ensures ParseDims(dims).Some? ==>
              |ParseDims(dims).value| == |dims| && forall k :: 0 <= k < |dims| ==> ParseDim(dims[k]) == Some(ParseDims(dims).value[k])
  {
    if dims != [] {
      DimensionByDimension(dims[1..]);
      assert forall k :: 1 <= k < |dims| ==> dims[k] == dims[1..][k - 1];
    }
  }

  /** The parser: tokenizes, then reads one dimension after the other. */
  method FromString(s: string) returns (r: Option<seq<Dim>>)
    ensures exists dims :: SplitsInto(s, dims) && r == ParseDims(dims)
  {
    var dims := Tokenize(s);
    r := Generate(dims);
  }

  lemma AppendToNone(rest: Option<seq<Dim>>)
    ensures Append([], rest) == rest
  {
    if rest.Some? {
      assert [] + rest.value == rest.value;
    }
  }

  method Generate(dims: seq<seq<string>>) returns (r: Option<seq<Dim>>)
    ensures r == ParseDims(dims)
  {
    var ranges: seq<Dim> := [];
    assert dims[0..] == dims;
    AppendToNone(ParseDims(dims));
    for k := 0 to |dims|
      invariant ParseDims(dims) == Append(ranges, ParseDims(dims[k..]))
    {
      assert dims[k..][0] == dims[k] && dims[k..][1..] == dims[k + 1..];
      var d := ParseDim(dims[k]);
      if d.None? {
        return None;
      }
      ghost var rest := ParseDims(dims[k + 1..]);
      if rest.Some? {
        assert ranges + ([d.value] + rest.value) == ranges + [d.value] + rest.value;
      }
      ranges := ranges + [d.value];
    }
    assert dims[|dims|..] == [] && ranges + [] == ranges;
    r := Some(ranges);
  }

  // ---- printing ----

  /** The end as printed: exclusive, on the side the step points to. */
  function PrintedEnd(d: Dim): int {
    d.re + (if d.rs < 0 then -1 else 1)
  }

  function DimToString(d: Dim): string {
    Str(d.rb)
    + ((if d.re - d.rb != 0 then ":" + Str(PrintedEnd(d)) else "")
       + (if d.rs != 1 then ":" + Str(d.rs) else ""))
  }

  function ToString(dims: seq<Dim>): string {
    if dims == [] then "" else if |dims| == 1 then DimToString(dims[0])
    else DimToString(dims[0]) + (", " + ToString(dims[1..]))
  }

  /** The tokens of a printed dimension, the first one after a lead-in. */
  function TokensOf(d: Dim, lead: string): (r: seq<string>) {
    if d.re - d.rb != 0 then
      if d.rs != 1 then [lead + Str(d.rb), Str(PrintedEnd(d)), Str(d.rs)] else [lead + Str(d.rb), Str(PrintedEnd(d))]
    else
      if d.rs != 1 then [lead + Str(d.rb), Str(d.rs)] else [lead + Str(d.rb)]
  }

  /** Tokens of one dimension as items; the last separator is given. */
  function ItemsOfTokens(tokens: seq<string>, colon: bool): (r: seq<Item>)
    ensures |r| == |tokens|
  {
    if tokens == [] then [] else [Item(tokens[0], |tokens| > 1 || colon)] + ItemsOfTokens(tokens[1..], colon)
  }

  function ItemsOf(dims: seq<Dim>, lead: string): seq<Item> {
    if dims == [] then []
    else if |dims| == 1 then ItemsOfTokens(TokensOf(dims[0], lead), true)
    else ItemsOfTokens(TokensOf(dims[0], lead), false) + ItemsOf(dims[1..], " ")
  }

  function TokensOfAll(dims: seq<Dim>, lead: string): (r: seq<seq<string>>)
    ensures |r| == |dims|
  {
    if dims == [] then [] else [TokensOf(dims[0], lead)] + TokensOfAll(dims[1..], " ")
  }

  lemma {:induction false} NoParentheses(s: string)
    requires forall i :: 0 <= i < |s| ==> s[i] != '(' && s[i] != ')'
    ensures Depth(s) == 0
  {
    if s != "" {
      NoParentheses(s[..|s| - 1]);
    }
  }

  lemma PlainToken(i: int, lead: string)
    requires lead == "" || lead == " "
    ensures IsToken(lead + Str(i)) && Depth(lead + Str(i)) == 0
  {
    NoParentheses(lead + Str(i));
  }

  lemma {:induction false} PlainItems(tokens: seq<string>, colon: bool)
    requires forall k :: 0 <= k < |tokens| ==> IsToken(tokens[k]) && Depth(tokens[k]) == 0
    ensures AllItems(ItemsOfTokens(tokens, colon))
  {
    hide IsToken;
    if tokens != [] {
      PlainItems(tokens[1..], colon);
    }
  }

  lemma NoLead(s: string)
    ensures "" + s == s
  {
  }

  lemma ThreeTokens(d: Dim, lead: string)
    ensures forall k :: 0 <= k < |TokensOf(d, lead)| ==>
              TokensOf(d, lead)[k] in [lead + Str(d.rb), Str(PrintedEnd(d)), Str(d.rs)]
  {
  }

  lemma PlainTokens(d: Dim, lead: string)
    requires lead == "" || lead == " "
    ensures forall k :: 0 <= k < |TokensOf(d, lead)| ==> IsToken(TokensOf(d, lead)[k]) && Depth(TokensOf(d, lead)[k]) == 0
  {
    hide IsToken, Depth, Str;
    PlainToken(d.rb, lead);
    PlainToken(PrintedEnd(d), "");
    PlainToken(d.rs, "");
    NoLead(Str(PrintedEnd(d)));
    NoLead(Str(d.rs));
    ThreeTokens(d, lead);
  }

  /** Tokens joined by colons. */
  function JoinColons(tokens: seq<string>): string {
    if tokens == [] then "" else if |tokens| == 1 then tokens[0] else tokens[0] + (":" + JoinColons(tokens[1..]))
  }

  lemma {:induction false} TextOfTokens(tokens: seq<string>, colon: bool)
    requires tokens != []
    ensures Text(ItemsOfTokens(tokens, colon)) == JoinColons(tokens) + (if colon then ":" else ",")
  {
    var items := ItemsOfTokens(tokens, colon);
    if |tokens| == 1 {
      assert items == [Item(tokens[0], colon)];
      TextOne(items[0]);
    } else {
      TextOfTokens(tokens[1..], colon);
      assert items[1..] == ItemsOfTokens(tokens[1..], colon);
      var end := if colon then ":" else ",";
      assert tokens[0] + (":" + (JoinColons(tokens[1..]) + end)) == tokens[0] + (":" + JoinColons(tokens[1..])) + end;
    }
  }

  lemma JoinedDim(d: Dim, lead: string)
    ensures JoinColons(TokensOf(d, lead)) == lead + DimToString(d)
  {
    var t := TokensOf(d, lead);
    hide Str;
    if |t| == 1 {
      JoinOne(lead, Str(d.rb));
    } else if |t| == 2 {
      JoinTwo(lead, Str(d.rb), t[1]);
    } else {
      JoinThree(lead, Str(d.rb), t[1], t[2]);
    }
  }

  lemma JoinOne(lead: string, a: string)
    ensures JoinColons([lead + a]) == lead + (a + ("" + ""))
  {
  }

  lemma JoinTwo(lead: string, a: string, b: string)
    ensures JoinColons([lead + a, b]) == lead + (a + ((":" + b) + "")) == lead + (a + ("" + (":" + b)))
  {
    assert [lead + a, b][1..] == [b];
    assert (":" + b) + "" == ":" + b == "" + (":" + b);
    assert lead + a + (":" + b) == lead + (a + (":" + b));
  }

  lemma JoinThree(lead: string, a: string, b: string, c: string)
    ensures JoinColons([lead + a, b, c]) == lead + (a + ((":" + b) + (":" + c)))
  {
    var t := [lead + a, b, c];
    assert t[1..] == [b, c] && t[1..][1..] == [c];
    assert JoinColons(t[1..]) == b + (":" + c);
    assert lead + a + (":" + (b + (":" + c))) == lead + (a + ((":" + b) + (":" + c)));
  }

  lemma TextOfDim(d: Dim, lead: string, colon: bool)
    ensures Text(ItemsOfTokens(TokensOf(d, lead), colon)) == lead + DimToString(d) + (if colon then ":" else ",")
  {
    JoinedDim(d, lead);
    TextOfTokens(TokensOf(d, lead), colon);
  }

  lemma {:induction false} TextOfAll(dims: seq<Dim>, lead: string)
    requires dims != [] && (lead == "" || lead == " ")
    ensures Text(ItemsOf(dims, lead)) == lead + ToString(dims) + ":"
    decreases |dims|
  {
    hide Text, DimToString;
    if |dims| == 1 {
      TextOfDim(dims[0], lead, true);
    } else {
      TextOfDim(dims[0], lead, false);
      TextOfAll(dims[1..], " ");
      TextAppend(ItemsOfTokens(TokensOf(dims[0], lead), false), ItemsOf(dims[1..], " "));
      JoinDims(lead, DimToString(dims[0]), ToString(dims[1..]));
    }
  }

  lemma JoinDims(lead: string, first: string, rest: string)
    ensures lead + first + "," + (" " + rest + ":") == lead + (first + (", " + rest)) + ":"
  {
    assert ", " == "," + " ";
    assert first + (", " + rest) == first + "," + " " + rest;
  }

  lemma {:induction false} ItemsOfAllItems(dims: seq<Dim>, lead: string)
    requires lead == "" || lead == " "
    ensures AllItems(ItemsOf(dims, lead))
    decreases |dims|
  {
    hide IsItem;
    if dims != [] {
      PlainTokens(dims[0], lead);
      PlainItems(TokensOf(dims[0], lead), true);
      PlainItems(TokensOf(dims[0], lead), false);
      ItemsOfAllItems(dims[1..], " ");
    }
  }

  lemma {:induction false} GroupTokens(g: Groups, tokens: seq<string>, colon: bool)
    requires tokens != []
    ensures AddAll(g, ItemsOfTokens(tokens, colon)) ==
            if colon then Groups(g.dims, g.open + tokens) else Groups(g.dims + [g.open + tokens], [])
    decreases |tokens|
  {
    var items, t := ItemsOfTokens(tokens, colon), tokens[0];
    assert items[1..] == ItemsOfTokens(tokens[1..], colon);
    if |tokens| == 1 {
      assert items[1..] == [] && tokens == [t];
    } else {
      GroupTokens(Groups(g.dims, g.open + [t]), tokens[1..], colon);
      assert g.open + [t] + tokens[1..] == g.open + tokens;
    }
  }

  lemma {:induction false} GroupAll(done: seq<seq<string>>, dims: seq<Dim>, lead: string)
    requires dims != []
    ensures var g := AddAll(Groups(done, []), ItemsOf(dims, lead)); g.dims + [g.open] == done + TokensOfAll(dims, lead)
    decreases |dims|
  {
    var tokens := TokensOf(dims[0], lead);
    GroupTokens(Groups(done, []), tokens, |dims| == 1);
    assert [] + tokens == tokens;
    if |dims| == 1 {
      assert TokensOfAll(dims, lead) == [tokens];
    } else {
      AddAllAppend(Groups(done, []), ItemsOfTokens(tokens, false), ItemsOf(dims[1..], " "));
      GroupAll(done + [tokens], dims[1..], " ");
      assert done + [tokens] + TokensOfAll(dims[1..], " ") == done + ([tokens] + TokensOfAll(dims[1..], " "));
    }
  }

  /** The printed range splits into the printed tokens. */
  lemma PrintedSplits(dims: seq<Dim>)
    requires dims != []
    ensures SplitsInto(ToString(dims), TokensOfAll(dims, ""))
  {
    var items := ItemsOf(dims, "");
    ItemsOfAllItems(dims, "");
    TextOfAll(dims, "");
    assert "" + ToString(dims) == ToString(dims);
    GroupAll([], dims, "");
    assert [] + TokensOfAll(dims, "") == TokensOfAll(dims, "");
    assert Dimensions(items) == TokensOfAll(dims, "");
  }

  // ---- the round trip ----

  /** The printed form distinguishes the dimension: a single point must have step one. */
  predicate Printable(d: Dim) {
    d.rs == 1 || d.re != d.rb
  }

  /** What the text of a dimension is read as: a point with another step is mistaken for a range. */
  function ReadBack(d: Dim): Dim {
    if Printable(d) then d else Dim(d.rb, d.rs - 1, 1)
  }

  lemma ParsePrintedDim(d: Dim, lead: string)
    requires lead == "" || lead == " "
    ensures ParseDim(TokensOf(d, lead)) == Some(ReadBack(d))
  {
    hide ParseInt, Str;
    IntRoundTrip(d.rb, lead);
    IntRoundTrip(PrintedEnd(d), "");
    IntRoundTrip(d.rs, "");
    assert "" + Str(PrintedEnd(d)) == Str(PrintedEnd(d)) && "" + Str(d.rs) == Str(d.rs);
  }

  lemma {:induction false} ParsePrintedDims(dims: seq<Dim>, lead: string)
    requires lead == "" || lead == " "
    ensures var r := ParseDims(TokensOfAll(dims, lead));
            r.Some? && |r.value| == |dims| && forall k :: 0 <= k < |dims| ==> r.value[k] == ReadBack(dims[k])
    decreases |dims|
  {
    hide ParseDim, TokensOf;
    if dims != [] {
      ParsePrintedDim(dims[0], lead);
      ParsePrintedDims(dims[1..], " ");
      assert TokensOfAll(dims, lead)[1..] == TokensOfAll(dims[1..], " ");
    }
  }

  lemma EmptyTextFails(dims: seq<seq<string>>)
    requires SplitsInto("", dims)
    ensures ParseDims(dims) == None
  {
    var items := [Item("", true)];
    TextOne(items[0]);
    assert AllItems(items) && Text(items) == "" + ":";
    assert items[1..] == [];
    assert [] + [""] == [""];
    assert AddAll(Groups([], []), items) == Groups([], [""]);
    var none: seq<seq<string>> := [];
    assert none + [[""]] == [[""]];
    assert Dimensions(items) == [[""]];
    SplitUnique("", dims, [[""]]);
    assert ParseInt("") == None;
    assert ParseDim([""]) == None;
  }

  /** Parsing the printed form gives the range back exactly when it has a dimension at all and all
      its single points have step one. */
  lemma {:induction false} PrintParseIff(dims: seq<Dim>, tokens: seq<seq<string>>)
    requires SplitsInto(ToString(dims), tokens)
    ensures ParseDims(tokens) == Some(dims) <==> dims != [] && forall k :: 0 <= k < |dims| ==> Printable(dims[k])
  {
    hide SplitsInto, ParseDims, TokensOfAll;
    if dims == [] {
      EmptyTextFails(tokens);
    } else {
      PrintedSplits(dims);
      SplitUnique(ToString(dims), tokens, TokensOfAll(dims, ""));
      ParsePrintedDims(dims, "");
      ReadBackIff(ParseDims(tokens).value, dims);
    }
  }

  lemma ReadBackIff(r: seq<Dim>, dims: seq<Dim>)
    requires |r| == |dims| && forall k :: 0 <= k < |dims| ==> r[k] == ReadBack(dims[k])
    ensures r == dims <==> forall k :: 0 <= k < |dims| ==> Printable(dims[k])
  {
    forall k | 0 <= k < |dims| ensures r[k] == dims[k] <==> Printable(dims[k]) {
    }
  }

  /** The point 3 with step two prints as 3:2, which reads as the empty range from 3 up to 2. */
  lemma PointWithStepIsMisread(tokens: seq<seq<string>>)
    requires SplitsInto(ToString([Dim(3, 3, 2)]), tokens)
    ensures ToString([Dim(3, 3, 2)]) == "3:2" && ParseDims(tokens) == Some([Dim(3, 1, 1)])
  {
    var dims := [Dim(3, 3, 2)];
    PrintedSplits(dims);
    SplitUnique(ToString(dims), tokens, TokensOfAll(dims, ""));
    ParsePrintedDims(dims, "");
    assert ParseDims(tokens).value == [ReadBack(dims[0])];
  }

  /** The range without dimensions prints as empty text, which is not read as a range. */
  lemma EmptyRangeIsNotRead(tokens: seq<seq<string>>)
    requires SplitsInto(ToString([]), tokens)
    ensures ToString([]) == "" && ParseDims(tokens) == None
  {
    EmptyTextFails(tokens);
  }

  /** Printing and parsing. */
  method PrintThenParse(dims: seq<Dim>) returns (r: Option<seq<Dim>>)
    ensures r == Some(dims) <==> dims != [] && forall k :: 0 <= k < |dims| ==> Printable(dims[k])
  {
    r := FromString(ToString(dims));
    ghost var tokens :| SplitsInto(ToString(dims), tokens) && r == ParseDims(tokens);
    PrintParseIff(dims, tokens);
  }
}
