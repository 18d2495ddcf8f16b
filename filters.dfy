/**
 * `parse_filters`: turns a comma-separated list of filter names into a
 * bit mask, one bit `1 << j` per filter type j, or -1 when the list is
 * NULL or names an unknown filter. A token selects every name it is a
 * prefix of (the comparison is `strncmp` bounded by the token's length),
 * and the last such name wins.
 *
 * The string is modelled as its characters before the terminating NUL.
 */
module FilterList {
  import opened Wrappers

  /** The six filter type names, in the order of their bits. */
  const FilterNames: seq<string> := ["identity", "edge", "sharpen", "box-blur", "gaussian-blur", "unsharp-masking"]

  /**
   * The flag of type j (`FILTER_IDENTITY` .. `FILTER_UNSHARP_MASK`), the
   * value `1 << j` that `parse_filters` computes (see `BitIsShift`).
   */
  function Bit(j: nat): bv32
    requires j < |FilterNames|
  {
    if j == 0 then 1 else if j == 1 then 2 else if j == 2 then 4 else if j == 3 then 8 else if j == 4 then 16 else 32
  }

  /** The flag table is `1 << j`, bit j alone. */
  lemma BitIsShift(j: nat)
    requires j < |FilterNames|
    ensures Bit(j) == 1 << j
  {
  }

  /** The flag values `1 << j` of the six types. */
  predicate IsBit(f: bv32)
  {
    f == 1 || f == 2 || f == 4 || f == 8 || f == 16 || f == 32
  }

  /** The C `int` -1 as its 32-bit pattern; the model keeps the C `int`s `f` and `res` as 32-bit patterns. */
  const MinusOne: bv32 := 0xFFFF_FFFF

  /** The C `int` a 32-bit pattern stands for (two's complement). */
  function SignedValue(b: bv32): int
  {
    if b < 0x8000_0000 then b as int else b as int - 0x1_0000_0000
  }

  // ---------------------------------------------------------------------
  // Matching one token against the names
  // ---------------------------------------------------------------------

  /**
   * `strncmp(p, q, n) == 0` for C strings given by their characters before
   * the terminating NUL: the first `n` characters agree, or both strings end
   * at the same place before that.
   */
  predicate StrncmpEq(p: string, q: string, n: nat)
  {
    if n == 0 then true
    else if p == [] || q == [] then p == q
    else p[0] == q[0] && StrncmpEq(p[1..], q[1..], n - 1)
  }

  /** Compared over `n` characters that `p` has, `strncmp` is equal exactly when those characters are a prefix of `q`. */
  lemma {:induction false} StrncmpIsPrefix(p: string, q: string, n: nat)
    requires n <= |p|
    ensures StrncmpEq(p, q, n) <==> p[..n] <= q
  {
    if n > 0 && q != [] {
      StrncmpIsPrefix(p[1..], q[1..], n - 1);
      assert p[..n] == [p[0]] + p[1..][..n - 1];
      assert q == [q[0]] + q[1..];
    }
  }

  /** The last name among the first `n` that `strncmp` over the token's length matches. */
  function LastMatch(tok: string, n: nat): (r: Option<nat>)
    requires n <= |FilterNames|
    ensures r.Some? ==> r.value < n
  {
    if n == 0 then None
    else if StrncmpEq(tok, FilterNames[n - 1], |tok|) then Some(n - 1)
    else LastMatch(tok, n - 1)
  }

  /** `LastMatch` finds a name `tok` matches, none later matches, and None means none matches. */
  lemma {:induction false} LastMatchIsLast(tok: string, n: nat)
    requires n <= |FilterNames|
    ensures var r := LastMatch(tok, n);
      && (r.Some? ==> StrncmpEq(tok, FilterNames[r.value], |tok|))
      && (r.Some? ==> forall j :: r.value < j < n ==> !StrncmpEq(tok, FilterNames[j], |tok|))
      && (r.None? <==> forall j :: 0 <= j < n ==> !StrncmpEq(tok, FilterNames[j], |tok|))
  {
    if n > 0 && !StrncmpEq(tok, FilterNames[n - 1], |tok|) {
      LastMatchIsLast(tok, n - 1);
    }
  }

  /** The filter type a token selects, if any. */
  function TokenType(tok: string): Option<nat>
  {
    LastMatch(tok, |FilterNames|)
  }

  /** The C variable `f` for a type that may be missing: -1 or `1 << j`. */
  function FlagOf(m: Option<nat>): bv32
    requires m.Some? ==> m.value < |FilterNames|
  {
    match m
    case None => MinusOne
    case Some(j) => Bit(j)
  }

  /** The value of `f` after the inner loop has compared a token with all six names. */
  function TokenFlagOf(tok: string): bv32
  {
    FlagOf(TokenType(tok))
  }

  /** A token's flag is -1 exactly when it selects no type, and `1 << j` exactly when it selects type j. */
  lemma TokenFlagCases(tok: string)
    ensures TokenFlagOf(tok) == MinusOne <==> TokenType(tok).None?
    ensures TokenFlagOf(tok) == MinusOne || IsBit(TokenFlagOf(tok))
    ensures forall j :: 0 <= j < |FilterNames| ==> (TokenFlagOf(tok) == Bit(j) <==> TokenType(tok) == Some(j))
  {
  }

  /** The inner loop of `parse_filters`: compares the `len` characters at `start` with every name. */
  method TokenFlag(s: string, start: nat, len: nat) returns (f: bv32)
    requires start + len <= |s|
    ensures f == TokenFlagOf(s[start..start + len])
    ensures f == MinusOne <==> forall j :: 0 <= j < |FilterNames| ==> !(s[start..start + len] <= FilterNames[j])
  {
    ghost var tok := s[start..start + len];
    f := MinusOne;
    var j := 0;
    while j < 6
      invariant 0 <= j <= 6
      invariant f == FlagOf(LastMatch(tok, j))
    {
      StrncmpOnToken(s, start, len, FilterNames[j]);
      if StrncmpEq(s[start..], FilterNames[j], len) {  // strncmp(filter + start, type[j], len) == 0
        f := Bit(j);
      }
      j := j + 1;
    }
    LastMatchIsLast(tok, 6);
    forall j | 0 <= j < |FilterNames|
      ensures StrncmpEq(tok, FilterNames[j], |tok|) <==> tok <= FilterNames[j]
    {
      StrncmpIsPrefix(tok, FilterNames[j], |tok|);
      assert tok[..|tok|] == tok;
    }
  }

  /** `strncmp` over `len` characters only sees the token, not the rest of the string after it. */
  lemma StrncmpOnToken(s: string, start: nat, len: nat, name: string)
    requires start + len <= |s|
    ensures StrncmpEq(s[start..], name, len) == StrncmpEq(s[start..start + len], name, len)
  {
    var p := s[start..];
    var tok := s[start..start + len];
    StrncmpIsPrefix(p, name, len);
    StrncmpIsPrefix(tok, name, len);
    assert p[..len] == tok[..len];
  }

  // ---------------------------------------------------------------------
  // Splitting the list into tokens
  // ---------------------------------------------------------------------

  /** The comma-separated segments of `s`; `Split("")` is `[""]`. */
  function Split(s: string): (r: seq<string>)
    ensures |r| >= 1
  {
    if s == [] then [[]]
    else
      var init := Split(s[..|s| - 1]);
      var c := s[|s| - 1];
      if c == ',' then init + [[]]
      else init[..|init| - 1] + [init[|init| - 1] + [c]]
  }

  /** The segments joined back with commas. */
  function Join(toks: seq<string>): string
    requires |toks| >= 1
  {
    if |toks| == 1 then toks[0] else Join(toks[..|toks| - 1]) + [','] + toks[|toks| - 1]
  }

  /**
   * The tokens `parse_filters` compares: every character but the last is
   * split on commas, and the last character always ends the last token,
   * even when it is a comma.
   */
  function Tokens(s: string): (toks: seq<string>)
    ensures toks == [] <==> s == []
    ensures s != [] ==> Join(toks) == s
  {
    if s == [] then []
    else
      var sp := Split(s[..|s| - 1]);
      JoinSplit(s[..|s| - 1]);
      JoinExtendLast(sp, s[|s| - 1]);
      assert s[..|s| - 1] + [s[|s| - 1]] == s;
      sp[..|sp| - 1] + [sp[|sp| - 1] + [s[|s| - 1]]]
  }

  /** No segment contains a comma. */
  lemma {:induction false} SplitHasNoComma(s: string)
    ensures forall k :: 0 <= k < |Split(s)| ==> ',' !in Split(s)[k]
  {
    if s != [] {
      SplitHasNoComma(s[..|s| - 1]);
    }
  }

  /** Joining the segments gives the string back. */
  lemma {:induction false} JoinSplit(s: string)
    ensures Join(Split(s)) == s
  {
    if s != [] {
      var p := s[..|s| - 1];
      var c := s[|s| - 1];
      var init := Split(p);
      JoinSplit(p);
      if c == ',' {
        assert (init + [[]])[..|init|] == init;
      } else {
        JoinExtendLast(init, c);
      }
      assert p + [c] == s;
    }
  }

  /** Adding a character to the last segment adds it at the end of the joined string. */
  lemma JoinExtendLast(toks: seq<string>, c: char)
    requires |toks| >= 1
    ensures Join(toks[..|toks| - 1] + [toks[|toks| - 1] + [c]]) == Join(toks) + [c]
  {
    var toks' := toks[..|toks| - 1] + [toks[|toks| - 1] + [c]];
    if |toks| > 1 {
      assert toks'[..|toks'| - 1] == toks[..|toks| - 1];
    }
  }

  /** Splitting after a comma and a comma-free segment adds that segment. */
  lemma {:induction false} SplitAppend(x: string, w: string)
    requires ',' !in w
    ensures Split(x + [','] + w) == Split(x) + [w]
  {
    if w == [] {
      assert x + [','] + w == x + [','];
      assert (x + [','])[..|x|] == x;
    } else {
      var w' := w[..|w| - 1];
      SplitAppend(x, w');
      assert (x + [','] + w)[..|x + [','] + w| - 1] == x + [','] + w';
      assert w' + [w[|w| - 1]] == w;
    }
  }

  /** Splitting comma-free tokens joined with commas gives them back. */
  lemma {:induction false} SplitJoin(toks: seq<string>)
    requires |toks| >= 1
    requires forall k :: 0 <= k < |toks| ==> ',' !in toks[k]
    ensures Split(Join(toks)) == toks
  {
    if |toks| == 1 {
      SplitNoComma(toks[0]);
    } else {
      var init := toks[..|toks| - 1];
      SplitJoin(init);
      SplitAppend(Join(init), toks[|toks| - 1]);
      assert init + [toks[|toks| - 1]] == toks;
    }
  }

  /** A string without commas is one segment. */
  lemma {:induction false} SplitNoComma(w: string)
    requires ',' !in w
    ensures Split(w) == [w]
  {
    if w != [] {
      SplitNoComma(w[..|w| - 1]);
      assert w[..|w| - 1] + [w[|w| - 1]] == w;
    }
  }

  /** When the last character is not a comma, the tokens are the segments. */
  lemma TokensAreSegments(s: string)
    requires s != [] && s[|s| - 1] != ','
    ensures Tokens(s) == Split(s)
  {
  }

  // ---------------------------------------------------------------------
  // Combining the flags of the tokens
  // ---------------------------------------------------------------------

  /** The value of `f` for each token, in order, for a given way of computing one token's `f`. */
  function Flags(toks: seq<string>, flag: string -> bv32): (fs: seq<bv32>)
    ensures |fs| == |toks|
  {
    if toks == [] then [] else Flags(toks[..|toks| - 1], flag) + [flag(toks[|toks| - 1])]
  }

  /** `res |= f` over the flags in order. */
  function OrAll(fs: seq<bv32>): bv32
  {
    if |fs| == 0 then 0 else OrAll(fs[..|fs| - 1]) | fs[|fs| - 1]
  }

  /** The result for a list of tokens: -1 when some token's flag is -1, otherwise the OR of the flags. */
  function Combine(toks: seq<string>, flag: string -> bv32): bv32
  {
    var fs := Flags(toks, flag);
    if MinusOne in fs then MinusOne else OrAll(fs)
  }

  /** The value `parse_filters` returns, as its 32-bit pattern. */
  function FilterBits(filter: Option<string>): bv32
  {
    match filter
    case None => MinusOne
    case Some(s) => Combine(Tokens(s), TokenFlagOf)
  }

  /** The value `parse_filters` returns. */
  function FilterFlags(filter: Option<string>): int
  {
    SignedValue(FilterBits(filter))
  }

  /**
   * What the loop of `parse_filters` returns when it reaches index i with the
   * current token starting at `start` and the flags so far OR-ed into `res`.
   */
  function ScanFrom(s: string, i: nat, start: nat, res: bv32, flag: string -> bv32): bv32
    requires start <= i <= |s|
    decreases |s| - i
  {
    if i == |s| then res
    else if s[i] == ',' || i + 1 == |s| then
      var f := flag(s[start..if i + 1 == |s| then i + 1 else i]);
      if f == MinusOne then MinusOne else ScanFrom(s, i + 1, i + 1, res | f, flag)
    else ScanFrom(s, i + 1, start, res, flag)
  }

  /** `parse_filters`. */
  method ParseFilters(filter: Option<string>) returns (r: int)
    requires filter.Some? ==> CString(filter.value)
    ensures r == FilterFlags(filter)
    ensures filter.None? ==> r == -1
  {
    if filter.None? {
      return -1;
    }
    var s := filter.value;
    var res: bv32 := 0;
    var start := 0;
    var i := 0;
    while i < |s|
      invariant 0 <= start <= i <= |s|
      invariant ScanFrom(s, i, start, res, TokenFlagOf) == ScanFrom(s, 0, 0, 0, TokenFlagOf)
    {
      if s[i] == ',' || i + 1 == |s| {
        var len := i - start;
        if i + 1 == |s| {
          len := len + 1;
        }
        var f := TokenFlag(s, start, len);
        assert s[start..start + len] == s[start..if i + 1 == |s| then i + 1 else i];
        if f == MinusOne {
          ScanIsCombine(s, TokenFlagOf);
          return -1;
        }
        res := res | f;
        start := i + 1;
      }
      i := i + 1;
    }
    ScanIsCombine(s, TokenFlagOf);
    return SignedValue(res);
  }

  /** The loop, started on the whole list, computes `Combine` of its tokens. */
  lemma ScanIsCombine(s: string, flag: string -> bv32)
    ensures ScanFrom(s, 0, 0, 0, flag) == Combine(Tokens(s), flag)
  {
    assert s[..0] == [] && s[0..0] == [];
    ScanCorrect(s, 0, 0, [], flag);
  }

  /**
   * From any loop state that agrees with the tokens `done` read so far (their
   * flags, none of them -1, OR-ed into `res`), the scan ends in the result for all tokens.
   */
  lemma {:induction false} ScanCorrect(s: string, i: nat, start: nat, done: seq<string>, flag: string -> bv32)
    requires start <= i <= |s|
    requires i < |s| ==> Split(s[..i]) == done + [s[start..i]]
    requires i == |s| ==> done == Tokens(s)
    requires MinusOne !in Flags(done, flag)
    ensures ScanFrom(s, i, start, OrAll(Flags(done, flag)), flag) == Combine(Tokens(s), flag)
    decreases |s| - i
  {
    if i < |s| {
      if s[i] == ',' || i + 1 == |s| {
        var tok := s[start..if i + 1 == |s| then i + 1 else i];
        CutTokens(s, i, start, done, tok);
        if flag(tok) == MinusOne {
          UnknownFails(Tokens(s), done, tok, flag);
        } else {
          KnownStep(done, tok, flag);
          ScanCorrect(s, i + 1, i + 1, done + [tok], flag);
          ScanCloses(s, i, start, OrAll(Flags(done, flag)), flag);
        }
      } else {
        SplitExtends(s, i, start, done);
        ScanCorrect(s, i + 1, start, done, flag);
      }
    }
  }

  /** Closing a known token: the scan continues after it with the token's flag OR-ed in. */
  lemma ScanCloses(s: string, i: nat, start: nat, res: bv32, flag: string -> bv32)
    requires start <= i < |s| && (s[i] == ',' || i + 1 == |s|)
    requires flag(s[start..if i + 1 == |s| then i + 1 else i]) != MinusOne
    ensures ScanFrom(s, i, start, res, flag) == ScanFrom(s, i + 1, i + 1, res | flag(s[start..if i + 1 == |s| then i + 1 else i]), flag)
  {
  }

  /** A token whose flag is -1 makes the result -1. */
  lemma UnknownFails(toks: seq<string>, done: seq<string>, tok: string, flag: string -> bv32)
    requires done + [tok] <= toks
    requires flag(tok) == MinusOne
    ensures Combine(toks, flag) == MinusOne
  {
    FlagsStep(done, tok, flag);
    FlagsPrefix(done + [tok], toks, flag);
    assert Flags(toks, flag)[|done|] == MinusOne;
  }

  /** A token whose flag is not -1 appends its flag, which `res |= f` OR-s in. */
  lemma KnownStep(done: seq<string>, tok: string, flag: string -> bv32)
    requires MinusOne !in Flags(done, flag)
    requires flag(tok) != MinusOne
    ensures MinusOne !in Flags(done + [tok], flag)
    ensures OrAll(Flags(done + [tok], flag)) == OrAll(Flags(done, flag)) | flag(tok)
  {
    FlagsStep(done, tok, flag);
    OrStep(Flags(done, flag), flag(tok));
  }

  /**
   * Closing a token at position i (a comma, or the last character): the
   * token is the next one of `Tokens(s)`, and a new token starts after it.
   */
  lemma CutTokens(s: string, i: nat, start: nat, done: seq<string>, tok: string)
    requires start <= i < |s| && (s[i] == ',' || i + 1 == |s|)
    requires Split(s[..i]) == done + [s[start..i]]
    requires tok == s[start..if i + 1 == |s| then i + 1 else i]
    ensures done + [tok] <= Tokens(s)
    ensures i + 1 < |s| ==> Split(s[..i + 1]) == done + [tok] + [s[i + 1..i + 1]]
    ensures i + 1 == |s| ==> done + [tok] == Tokens(s)
  {
    if i + 1 == |s| {
      LastToken(s, start, done);
    } else {
      CommaToken(s, i, start, done);
    }
  }

  /** One more token appends its flag. */
  lemma FlagsStep(toks: seq<string>, tok: string, flag: string -> bv32)
    ensures Flags(toks + [tok], flag) == Flags(toks, flag) + [flag(tok)]
  {
    assert (toks + [tok])[..|toks|] == toks;
  }

  /** `res |= f` for one more flag. */
  lemma OrStep(fs: seq<bv32>, f: bv32)
    ensures OrAll(fs + [f]) == OrAll(fs) | f
  {
    assert (fs + [f])[..|fs|] == fs;
  }

  /** The flags of a prefix of the tokens are a prefix of their flags. */
  lemma {:induction false} FlagsPrefix(a: seq<string>, b: seq<string>, flag: string -> bv32)
    requires a <= b
    ensures Flags(a, flag) <= Flags(b, flag)
    decreases |b|
  {
    if |a| < |b| {
      var init := b[..|b| - 1];
      FlagsPrefix(a, init, flag);
      assert b == init + [b[|b| - 1]];
      FlagsStep(init, b[|b| - 1], flag);
    } else {
      assert a == b;
    }
  }

  /** A character that is not a comma, before the last one, extends the current token. */
  lemma SplitExtends(s: string, i: nat, start: nat, done: seq<string>)
    requires start <= i < |s| && s[i] != ','
    requires Split(s[..i]) == done + [s[start..i]]
    ensures Split(s[..i + 1]) == done + [s[start..i + 1]]
  {
    assert s[..i + 1][..i] == s[..i];
    assert s[start..i + 1] == s[start..i] + [s[i]];
  }

  /** The token closed at the last character completes `Tokens(s)`. */
  lemma LastToken(s: string, start: nat, done: seq<string>)
    requires start < |s|
    requires Split(s[..|s| - 1]) == done + [s[start..|s| - 1]]
    ensures done + [s[start..|s|]] == Tokens(s)
  {
    assert s[start..|s|] == s[start..|s| - 1] + [s[|s| - 1]];
  }

  /** A token closed by a comma before the last character is the next token of `Tokens(s)`, and a new empty token starts. */
  lemma CommaToken(s: string, i: nat, start: nat, done: seq<string>)
    requires start <= i && i + 1 < |s| && s[i] == ','
    requires Split(s[..i]) == done + [s[start..i]]
    ensures done + [s[start..i]] <= Tokens(s)
    ensures Split(s[..i + 1]) == done + [s[start..i]] + [s[i + 1..i + 1]]
  {
    var p := s[..i + 1];
    var b := Split(p);
    assert b == done + [s[start..i]] + [[]] by {
      assert p[..|p| - 1] == s[..i] && p[|p| - 1] == ',';
    }
    var a := Split(s[..|s| - 1]);
    assert b[..|b| - 1] <= a[..|a| - 1] by {
      SplitStable(p, s[i + 1..|s| - 1]);
      assert p + s[i + 1..|s| - 1] == s[..|s| - 1];
    }
    assert a[..|a| - 1] <= Tokens(s);
    assert b[..|b| - 1] == done + [s[start..i]];
    PrefixTransitive(b[..|b| - 1], a[..|a| - 1], Tokens(s));
    assert s[i + 1..i + 1] == [];
  }

  lemma PrefixTransitive<T>(x: seq<T>, y: seq<T>, z: seq<T>)
    requires x <= y && y <= z
    ensures x <= z
  {
    assert z[..|x|] == y[..|x|];
  }

  /** Appending characters never changes the segments before the last one. */
  lemma {:induction false} SplitStable(p: string, q: string)
    ensures var a := Split(p); var b := Split(p + q); a[..|a| - 1] <= b[..|b| - 1]
  {
    if q != [] {
      var q' := q[..|q| - 1];
      SplitStable(p, q');
      assert (p + q)[..|p + q| - 1] == p + q';
    } else {
      assert p + q == p;
    }
  }

  // ---------------------------------------------------------------------
  // What the result means
  // ---------------------------------------------------------------------

  /** Flag k is the flag of token k. */
  lemma {:induction false} FlagsAt(toks: seq<string>, flag: string -> bv32)
    ensures forall k :: 0 <= k < |toks| ==> Flags(toks, flag)[k] == flag(toks[k])
  {
    if toks != [] {
      FlagsAt(toks[..|toks| - 1], flag);
    }
  }

  /** A value is among the flags exactly when some token has it as its flag. */
  lemma FlagsHave(toks: seq<string>, flag: string -> bv32, v: bv32)
    ensures v in Flags(toks, flag) <==> exists t :: t in toks && flag(t) == v
  {
    var fs := Flags(toks, flag);
    FlagsAt(toks, flag);
    if v in fs {
      var k :| 0 <= k < |fs| && fs[k] == v;
      assert toks[k] in toks;
    }
    if t :| t in toks && flag(t) == v {
      var k :| 0 <= k < |toks| && toks[k] == t;
      assert fs[k] == v;
    }
  }

  /** OR-ing single-type flags gives a mask below 64 whose bit j is set exactly when `1 << j` was OR-ed in. */
  lemma {:induction false} OrAllMask(fs: seq<bv32>)
    requires forall k :: 0 <= k < |fs| ==> IsBit(fs[k])
    ensures OrAll(fs) < 64
    ensures forall j :: 0 <= j < 6 ==> ((OrAll(fs) & Bit(j) != 0) <==> Bit(j) in fs)
  {
    if |fs| > 0 {
      var init := fs[..|fs| - 1];
      var f := fs[|fs| - 1];
      OrAllMask(init);
      OrIsBit(OrAll(init), f);
      assert fs == init + [f];
      assert forall x :: x in fs <==> x in init || x == f;
    }
  }

  /** Setting the bit of one flag in a mask below 64. */
  lemma OrIsBit(m: bv32, f: bv32)
    requires m < 64 && IsBit(f)
    ensures m | f < 64
    ensures forall j :: 0 <= j < 6 ==> (((m | f) & Bit(j) != 0) <==> (m & Bit(j) != 0 || f == Bit(j)))
  {
  }

  /** Some token selects no type. */
  ghost predicate AnyUnknown(toks: seq<string>)
  {
    exists t :: t in toks && TokenType(t).None?
  }

  /** The types the tokens select. */
  ghost function Selected(toks: seq<string>): set<nat>
  {
    set j | 0 <= j < |FilterNames| && exists t :: t in toks && TokenType(t) == Some(j)
  }

  /** The sum of `1 << j` over the types j in the set. */
  function Mask(types: set<nat>): int
  {
    (if 0 in types then 1 else 0) + (if 1 in types then 2 else 0) + (if 2 in types then 4 else 0) +
    (if 3 in types then 8 else 0) + (if 4 in types then 16 else 0) + (if 5 in types then 32 else 0)
  }

  /** A mask below 64 is the sum of its bits. */
  lemma MaskOfBits(v: bv32, types: set<nat>)
    requires v < 64
    requires forall j :: 0 <= j < 6 ==> (j in types <==> v & Bit(j) != 0)
    ensures v as int == Mask(types)
  {
    assert v == (v & 1) | (v & 2) | (v & 4) | (v & 8) | (v & 16) | (v & 32);
    assert v as int == (v & 1) as int + (v & 2) as int + (v & 4) as int + (v & 8) as int + (v & 16) as int + (v & 32) as int;
  }

  /** Some flag is -1 exactly when some token selects no type. */
  lemma UnknownIsMinusOne(toks: seq<string>)
    ensures MinusOne in Flags(toks, TokenFlagOf) <==> AnyUnknown(toks)
  {
    FlagsHave(toks, TokenFlagOf, MinusOne);
    forall t | t in toks {
      TokenFlagCases(t);
    }
  }

  /** When every token selects a type, the OR of their flags has bit j set exactly for the selected types j. */
  lemma KnownBits(toks: seq<string>)
    requires !AnyUnknown(toks)
    ensures OrAll(Flags(toks, TokenFlagOf)) < 64
    ensures forall j :: 0 <= j < 6 ==> (j in Selected(toks) <==> OrAll(Flags(toks, TokenFlagOf)) & Bit(j) != 0)
  {
    var fs := Flags(toks, TokenFlagOf);
    FlagsAt(toks, TokenFlagOf);
    forall k | 0 <= k < |fs|
      ensures IsBit(fs[k])
    {
      TokenFlagCases(toks[k]);
    }
    OrAllMask(fs);
    forall j | 0 <= j < 6
      ensures j in Selected(toks) <==> Bit(j) in fs
    {
      FlagsHave(toks, TokenFlagOf, Bit(j));
      forall t | t in toks {
        TokenFlagCases(t);
      }
    }
  }

  /**
   * `parse_filters` returns -1 when some token of the list selects no
   * type, and otherwise the sum of `1 << j` over the types the tokens select.
   */
  lemma FilterFlagsMeaning(s: string)
    ensures FilterFlags(Some(s)) == if AnyUnknown(Tokens(s)) then -1 else Mask(Selected(Tokens(s)))
  {
    var toks := Tokens(s);
    UnknownIsMinusOne(toks);
    if !AnyUnknown(toks) {
      KnownBits(toks);
      MaskOfBits(OrAll(Flags(toks, TokenFlagOf)), Selected(toks));
    }
  }

  /** The result is -1 or a mask of the six filter bits. */
  lemma FlagsInRange(filter: Option<string>)
    ensures -1 <= FilterFlags(filter) < 64
  {
    if filter.Some? {
      FilterFlagsMeaning(filter.value);
    }
  }

  /** Token order and repetition do not matter: lists with the same tokens give the same flags. */
  lemma SameTokensSameFlags(a: string, b: string)
    requires forall t :: t in Tokens(a) <==> t in Tokens(b)
    ensures FilterFlags(Some(a)) == FilterFlags(Some(b))
  {
    FilterFlagsMeaning(a);
    FilterFlagsMeaning(b);
    assert Selected(Tokens(a)) == Selected(Tokens(b));
  }

  /** No filter name contains a comma. */
  lemma NamesHaveNoComma()
    ensures forall j :: 0 <= j < |FilterNames| ==> ',' !in FilterNames[j]
  {
    assert ',' !in FilterNames[0] && ',' !in FilterNames[1] && ',' !in FilterNames[2];
    assert ',' !in FilterNames[3] && ',' !in FilterNames[4] && ',' !in FilterNames[5];
  }

  /** A list ending in a comma fails: the comma is compared as part of the last token, and no name contains one. */
  lemma TrailingCommaFails(s: string)
    requires s != [] && s[|s| - 1] == ','
    ensures FilterFlags(Some(s)) == -1
  {
    var toks := Tokens(s);
    var last := toks[|toks| - 1];
    assert last[|last| - 1] == ',';
    NamesHaveNoComma();
    forall j | 0 <= j < |FilterNames|
      ensures !StrncmpEq(last, FilterNames[j], |last|)
    {
      StrncmpIsPrefix(last, FilterNames[j], |last|);
      assert last[..|last|] == last;
    }
    LastMatchIsLast(last, |FilterNames|);
    assert last in toks;
    FilterFlagsMeaning(s);
  }

  /** The empty string has no tokens and selects nothing. */
  lemma EmptyListIsZero()
    ensures FilterFlags(Some([])) == 0
  {
  }

  /** An empty token is a prefix of every name, so it selects the last one, `unsharp-masking`. */
  lemma EmptyTokenSelectsLast()
    ensures TokenType([]) == Some(5)
  {
  }

  /** An abbreviation selects the name it begins: "gauss" is `gaussian-blur`. */
  lemma GaussSelectsGaussianBlur()
    ensures TokenType("gauss") == Some(4)
  {
    assert !StrncmpEq("gauss", FilterNames[5], 5);
    assert StrncmpEq("gauss", FilterNames[4], 5);
    LastMatchIsLast("gauss", 6);
  }

  /** "e" begins only `edge` among the names. */
  lemma ESelectsEdge()
    ensures TokenType("e") == Some(1)
  {
    assert !StrncmpEq("e", FilterNames[5], 1) && !StrncmpEq("e", FilterNames[4], 1);
    assert !StrncmpEq("e", FilterNames[3], 1) && !StrncmpEq("e", FilterNames[2], 1);
    assert StrncmpEq("e", FilterNames[1], 1);
    LastMatchIsLast("e", 6);
  }

  /** A token longer than a name it extends selects nothing: "edges" is not a prefix of `edge`. */
  lemma EdgesSelectsNothing()
    ensures TokenType("edges").None?
  {
    assert !StrncmpEq("edges", FilterNames[5], 5) && !StrncmpEq("edges", FilterNames[4], 5);
    assert !StrncmpEq("edges", FilterNames[3], 5) && !StrncmpEq("edges", FilterNames[2], 5);
    assert !StrncmpEq("edges", FilterNames[1], 5) && !StrncmpEq("edges", FilterNames[0], 5);
    LastMatchIsLast("edges", 6);
  }
}
