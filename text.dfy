/** The parts of Python's `str` semantics the document parsers rely on:
    the whitespace class of `str.isspace()`, `split()`, `split(sep)`,
    `strip()`, `sep.join(...)`, ASCII `lower()`, slicing, decimal rendering
    and `int(...)` on decimal text, and the POSIX rules of `os.path.splitext`
    and `os.path.basename`. */
module Text {
  import opened Outcomes

  /** Python's `str.isspace()` (and the separator class of `split()`/`strip()`):
      the ASCII controls \t \n \v \f \r, the separators \x1c-\x1f, space, and
      the Unicode spaces U+0085, U+00A0, U+1680, U+2000-U+200A, U+2028,
      U+2029, U+202F, U+205F, U+3000. */
  predicate IsSpace(c: char) {
    var n := c as int;
    (9 <= n <= 13) || (28 <= n <= 32) || n == 0x85 || n == 0xA0 || n == 0x1680
    || (0x2000 <= n <= 0x200A) || n == 0x2028 || n == 0x2029 || n == 0x202F
    || n == 0x205F || n == 0x3000
  }

  predicate IsDigit(c: char) { '0' <= c <= '9' }

  predicate IsBlank(s: string) { forall i :: 0 <= i < |s| ==> IsSpace(s[i]) }

  /** A piece produced by `split()`: non-empty and free of whitespace. */
  predicate IsToken(t: string) { t != [] && forall i :: 0 <= i < |t| ==> !IsSpace(t[i]) }

  /** Every character below code 32 is a whitespace character. */
  predicate NoControl(s: string) { forall i :: 0 <= i < |s| ==> s[i] as int >= 32 || IsSpace(s[i]) }

  /** No character below code 32 at all. */
  predicate Printable(s: string) { forall i :: 0 <= i < |s| ==> s[i] as int >= 32 }

  /** Python truthiness of an optional string: present and non-empty. */
  predicate Truthy(o: Option<string>) { o.Some? && o.value != [] }

  predicate AllDigits(s: string) { forall i :: 0 <= i < |s| ==> IsDigit(s[i]) }

  /** `s.lstrip()` */
  function LStrip(s: string): (r: string)
    ensures |r| <= |s| && r == s[|s| - |r|..]
    ensures forall i :: 0 <= i < |s| - |r| ==> IsSpace(s[i])
    ensures r == [] || !IsSpace(r[0])
  {
    if s != [] && IsSpace(s[0]) then LStrip(s[1..]) else s
  }

  /** `s.rstrip()` */
  function RStrip(s: string): (r: string)
    ensures |r| <= |s| && r == s[..|r|]
    ensures forall i :: |r| <= i < |s| ==> IsSpace(s[i])
    ensures r == [] || !IsSpace(r[|r| - 1])
  {
    if s != [] && IsSpace(s[|s| - 1]) then RStrip(s[..|s| - 1]) else s
  }

  /** `s.strip()` is empty exactly when `s` is all whitespace. */
  lemma {:induction false} StripEmpty(s: string)
    ensures Strip(s) == [] <==> IsBlank(s)
  {
    var l := LStrip(s);
    assert l == [] ==> IsBlank(s);
    if l != [] {
      assert !IsSpace(l[0]) && l[0] == s[|s| - |l|];
      assert RStrip(l) != [];
    }
  }

  /** `s.strip()` is the slice of `s` after its leading whitespace. */
  lemma StripSlice(s: string)
    ensures LeadingSpace(s) + |Strip(s)| <= |s|
    ensures Strip(s) == s[LeadingSpace(s)..LeadingSpace(s) + |Strip(s)|]
  {
    var l := LStrip(s);
    var r := RStrip(l);
    PrefixOfSuffix(s, |s| - |l|, |r|);
  }

  lemma PrefixOfSuffix(s: string, k: nat, n: nat)
    requires k + n <= |s|
    ensures s[k..][..n] == s[k..k + n]
  {
  }

  /** Stripping never introduces a character. */
  lemma StripAbsent(s: string, c: char)
    requires c !in s
    ensures c !in Strip(s)
  {
    var r := Strip(s);
    StripSlice(s);
    assert forall j :: 0 <= j < |r| ==> r[j] == s[LeadingSpace(s) + j];
  }

  /** How many whitespace characters `s.lstrip()` removes. */
  function LeadingSpace(s: string): (n: nat)
    ensures n <= |s|
  {
    |s| - |LStrip(s)|
  }

  /** `s.strip()`: the longest infix with no whitespace at either end. */
  function Strip(s: string): (r: string)
    ensures r == [] || (!IsSpace(r[0]) && !IsSpace(r[|r| - 1]))
    ensures s == [] || (!IsSpace(s[0]) && !IsSpace(s[|s| - 1])) ==> r == s
  {
    var l := LStrip(s);
    RStrip(l)
  }

  /** The longest prefix of `s` free of whitespace. */
  function Word(s: string): (w: string)
    ensures |w| <= |s| && w == s[..|w|]
    ensures forall i :: 0 <= i < |w| ==> !IsSpace(w[i])
    ensures |w| == |s| || IsSpace(s[|w|])
  {
    if s == [] || IsSpace(s[0]) then [] else [s[0]] + Word(s[1..])
  }

  /** `s.split()` with no argument: the maximal whitespace-free runs, in order. */
  function Tokens(s: string): (r: seq<string>)
    ensures forall t :: t in r ==> IsToken(t)
    ensures NoControl(s) ==> forall t :: t in r ==> Printable(t)
    decreases |s|
  {
    if s == [] then []
    else if IsSpace(s[0]) then Tokens(s[1..])
    else
      var w := Word(s);
      [w] + Tokens(s[|w|..])
  }

  /** `sep.join(parts)` */
  function Join(sep: string, parts: seq<string>): string
  {
    if parts == [] then []
    else if |parts| == 1 then parts[0]
    else parts[0] + sep + Join(sep, parts[1..])
  }

  /** How many times `d` occurs in `s`. */
  function Count(s: string, d: char): nat
  {
    if s == [] then 0 else (if s[0] == d then 1 else 0) + Count(s[1..], d)
  }

  /** `s.split(d)` for a one-character separator: empty pieces are kept, so
      there is one piece more than there are separators, and joining the
      pieces with `d` gives back `s`. */
  function SplitOn(s: string, d: char): (r: seq<string>)
    ensures |r| == Count(s, d) + 1
    ensures Join([d], r) == s
    ensures forall i :: 0 <= i < |r| ==> d !in r[i]
  {
    if s == [] then [[]]
    else
      var rest := SplitOn(s[1..], d);
      if s[0] == d then
        assert Join([d], [[]] + rest) == [d] + Join([d], rest);
        [[]] + rest
      else
        var r := [[s[0]] + rest[0]] + rest[1..];
        assert r[1..] == rest[1..];
        assert Join([d], r) == [s[0]] + Join([d], rest);
        r
  }

  /** `[piece.strip() for piece in s.split(d)]` */
  function SplitStrip(s: string, d: char): (r: seq<string>)
    ensures |r| == Count(s, d) + 1
    ensures forall i :: 0 <= i < |r| ==> r[i] == Strip(SplitOn(s, d)[i])
  {
    var pieces := SplitOn(s, d);
    seq(|pieces|, i requires 0 <= i < |pieces| => Strip(pieces[i]))
  }

  function LowerChar(c: char): char
  {
    if 'A' <= c <= 'Z' then (c as int + 32) as char else c
  }

  /** `s.lower()` on the ASCII letters. */
  function Lower(s: string): (r: string)
    ensures |r| == |s| && forall i :: 0 <= i < |s| ==> r[i] == LowerChar(s[i])
  {
    seq(|s|, i requires 0 <= i < |s| => LowerChar(s[i]))
  }

  /** `s[i:j]` for 0 <= i <= j: bounds past the end are clamped. */
  function Slice(s: string, i: nat, j: nat): (r: string)
    requires i <= j
    ensures |r| <= j - i
    ensures j <= |s| ==> r == s[i..j]
  {
    var lo := if i <= |s| then i else |s|;
    var hi := if j <= |s| then j else |s|;
    s[lo..hi]
  }

  /** `s.rfind(c)`: the last index holding `c`, or -1. */
  function LastIndex(s: string, c: char): (k: int)
    ensures -1 <= k < |s|
    ensures k >= 0 ==> s[k] == c
    ensures forall j :: k < j < |s| ==> s[j] != c
  {
    if s == [] then -1
    else if s[|s| - 1] == c then |s| - 1
    else LastIndex(s[..|s| - 1], c)
  }

  /** `os.path.splitext(p)[1]` on POSIX: from the last dot of the last path
      component, unless every character before that dot in the component is
      a dot (so `.bashrc` has no extension). */
  function Extension(p: string): (ext: string)
    ensures ext == [] || (ext[0] == '.' && |ext| <= |p| && ext == p[|p| - |ext|..])
    ensures '/' !in ext && forall i :: 1 <= i < |ext| ==> ext[i] != '.'
  {
    var sep := LastIndex(p, '/');
    var dot := LastIndex(p, '.');
    if dot > sep && exists k :: sep + 1 <= k < dot && p[k] != '.' then p[dot..] else []
  }

  /** `os.path.basename(p)` on POSIX: everything after the last slash. */
  function Basename(p: string): (r: string)
    ensures |r| <= |p| && r == p[|p| - |r|..]
    ensures '/' !in r
  {
    p[LastIndex(p, '/') + 1..]
  }

  function DigitChar(d: nat): char
    requires d < 10
  {
    ('0' as int + d) as char
  }

  /** The value of the decimal digits of `s`, ignoring any other character. */
  function DecimalValue(s: string): nat
  {
    if s == [] then 0
    else if IsDigit(s[|s| - 1]) then 10 * DecimalValue(s[..|s| - 1]) + (s[|s| - 1] as int - '0' as int)
    else DecimalValue(s[..|s| - 1])
  }

  /** `str(n)` for a natural number. */
  function NatToString(n: nat): (r: string)
    ensures r != [] && AllDigits(r)
  {
    if n < 10 then [DigitChar(n)] else NatToString(n / 10) + [DigitChar(n % 10)]
  }

  /** `str(n)` for an integer. */
  function IntToString(n: int): string
  {
    if n < 0 then "-" + NatToString(-n) else NatToString(n)
  }

  /** Digits in groups separated by single underscores, as `int()` accepts. */
  predicate DigitGroups(s: string)
  {
    && s != [] && IsDigit(s[0]) && IsDigit(s[|s| - 1])
    && forall i :: 0 <= i < |s| ==> IsDigit(s[i]) || (s[i] == '_' && i + 1 < |s| && IsDigit(s[i + 1]))
  }

  /** Python's `int(s)` in base 10: surrounding whitespace, an optional sign,
      then digit groups; `None` where Python raises `ValueError`. */
  function PyInt(s: string): Option<int>
  {
    var t := Strip(s);
    if t == [] then None
    else
      var body := if t[0] == '-' || t[0] == '+' then t[1..] else t;
      if !DigitGroups(body) then None
      else
        var v: int := if t[0] == '-' then -(DecimalValue(body) as int) else DecimalValue(body);
        Some(v)
  }

  /** `int(...)` of a plain run of decimal digits is its decimal value. */
  lemma PyIntOfDigits(s: string)
    requires s != [] && AllDigits(s)
    ensures PyInt(s) == Some(DecimalValue(s))
  {
    DigitsTrimmed(s);
  }

  /** A run of digits has no surrounding whitespace and no sign, and forms
      one digit group. */
  lemma DigitsTrimmed(s: string)
    requires s != [] && AllDigits(s)
    ensures Strip(s) == s && s[0] != '-' && s[0] != '+' && DigitGroups(s)
  {
    assert IsDigit(s[0]) && IsDigit(s[|s| - 1]);
  }

  /** `int(...)` of text with no decimal digit at all fails. */
  lemma PyIntNeedsDigit(s: string)
    requires forall i :: 0 <= i < |s| ==> !IsDigit(s[i])
    ensures PyInt(s) == None
  {
    var t := Strip(s);
    if t != [] {
      var body := if t[0] == '-' || t[0] == '+' then t[1..] else t;
      if body != [] {
        var c := body[0];
        assert c in t;
        if c !in s {
          StripAbsent(s, c);
        }
        var j :| 0 <= j < |s| && s[j] == c;
        assert !DigitGroups(body);
      }
    }
  }

  // ---------------------------------------------------------------------
  // Lemmas about split() and join()

  lemma {:induction false} WordOfExtension(a: string, x: string)
    requires |Word(a)| < |a| || (x != [] && IsSpace(x[0]))
    ensures Word(a + x) == Word(a)
  {
    if a == [] {
      assert a + x == x;
    } else if IsSpace(a[0]) {
      assert (a + x)[0] == a[0];
    } else {
      assert (a + x)[1..] == a[1..] + x;
      WordOfExtension(a[1..], x);
    }
  }

  /** One step of `split()` at a non-whitespace character: the word there,
      then the words of the rest. */
  lemma TokensAtWord(s: string)
    requires s != [] && !IsSpace(s[0])
    ensures Tokens(s) == [Word(s)] + Tokens(s[|Word(s)|..])
  {
  }

  /** Cutting `a + [c] + b` inside `a`. */
  lemma SplitAfter(a: string, c: char, b: string, k: nat)
    requires k <= |a|
    ensures a + [c] + b == a + ([c] + b)
    ensures (a + [c] + b)[k..] == a[k..] + [c] + b
  {
  }

  lemma ConsConcat<T>(x: T, p: seq<T>, q: seq<T>)
    ensures [x] + (p + q) == ([x] + p) + q
  {
  }

  /** A whitespace character splits the token stream: `(a + c + b).split()`
      is `a.split() + b.split()`. */
  lemma {:induction false} TokensAroundSpace(a: string, c: char, b: string)
    requires IsSpace(c)
    ensures Tokens(a + [c] + b) == Tokens(a) + Tokens(b)
    decreases |a|
  {
    var s := a + [c] + b;
    if a == [] {
      assert s[1..] == b;
    } else if IsSpace(a[0]) {
      assert s[0] == a[0];
      assert s[1..] == a[1..] + [c] + b;
      TokensAroundSpace(a[1..], c, b);
    } else {
      var w := Word(a);
      var restA := a[|w|..];
      SplitAfter(a, c, b, |w|);
      WordOfExtension(a, [c] + b);
      TokensAroundSpace(restA, c, b);
      TokensAtWord(s);
      TokensAtWord(a);
      ConsConcat(w, Tokens(restA), Tokens(b));
    }
  }

  lemma TokensOfToken(t: string)
    requires IsToken(t)
    ensures Tokens(t) == [t]
  {
    var w := Word(t);
    assert !IsSpace(t[0]);
    assert |w| == |t|;
    assert w == t;
    assert t[|w|..] == [];
    assert Tokens(t) == [w] + Tokens([]);
  }

  /** `" ".join(toks).split() == toks` for whitespace-free, non-empty tokens. */
  lemma {:induction false} TokensOfJoin(toks: seq<string>)
    requires forall t :: t in toks ==> IsToken(t)
    ensures Tokens(Join(" ", toks)) == toks
  {
    if |toks| == 0 {
    } else if |toks| == 1 {
      TokensOfToken(toks[0]);
    } else {
      assert Join(" ", toks) == toks[0] + [' '] + Join(" ", toks[1..]);
      TokensAroundSpace(toks[0], ' ', Join(" ", toks[1..]));
      TokensOfToken(toks[0]);
      TokensOfJoin(toks[1..]);
    }
  }

  /** Tokens joined by spaces, then whitespace, then `t`: the tokens come
      back first, followed by the words of `t`. */
  lemma TokensOfJoinThen(toks: seq<string>, d: char, t: string)
    requires forall w :: w in toks ==> IsToken(w)
    requires IsSpace(d)
    ensures Tokens(Join(" ", toks) + [d] + t) == toks + Tokens(t)
  {
    TokensAroundSpace(Join(" ", toks), d, t);
    TokensOfJoin(toks);
  }

  /** Joining tokens with single spaces: only spaces separate them, nothing
      blank at either end, and printable tokens give printable text. */
  lemma {:induction false} JoinOfTokens(toks: seq<string>)
    requires forall t :: t in toks ==> IsToken(t)
    ensures var j := Join(" ", toks);
      && (toks != [] ==> j != [])
      && (j == [] || (!IsSpace(j[0]) && !IsSpace(j[|j| - 1])))
      && (forall i :: 0 <= i < |j| ==> j[i] == ' ' || !IsSpace(j[i]))
      && ((forall t :: t in toks ==> Printable(t)) ==> Printable(j))
  {
    if |toks| == 1 {
      assert toks[0] in toks;
    } else if |toks| > 1 {
      assert toks[0] in toks;
      assert forall t :: t in toks[1..] ==> t in toks;
      JoinOfTokens(toks[1..]);
      var t0, rest := toks[0], Join(" ", toks[1..]);
      var j := t0 + " " + rest;
      assert Join(" ", toks) == j;
      assert j[|j| - 1] == rest[|rest| - 1];
      forall i | 0 <= i < |j| ensures j[i] == ' ' || !IsSpace(j[i]) {
        if i < |t0| { assert j[i] == t0[i]; }
        else if i > |t0| { assert j[i] == rest[i - |t0| - 1]; }
      }
      if forall t :: t in toks ==> Printable(t) {
        forall i | 0 <= i < |j| ensures j[i] as int >= 32 {
          if i < |t0| { assert j[i] == t0[i]; }
          else if i > |t0| { assert j[i] == rest[i - |t0| - 1]; }
        }
      }
    }
  }

  /** `sep.join(xs + [x])` extends `sep.join(xs)` by `sep + x`. */
  lemma {:induction false} JoinSnoc(sep: string, xs: seq<string>, x: string)
    ensures Join(sep, xs + [x]) == if xs == [] then x else Join(sep, xs) + sep + x
  {
    if |xs| >= 2 {
      assert (xs + [x])[1..] == xs[1..] + [x];
      JoinSnoc(sep, xs[1..], x);
    } else if |xs| == 1 {
      assert (xs + [x])[1..] == [x];
    }
  }

  /** `str(n)` and `int(...)` are inverse on natural numbers. */
  lemma {:induction false} NatToStringValue(n: nat)
    ensures DecimalValue(NatToString(n)) == n
  {
    if n >= 10 {
      NatToStringValue(n / 10);
      var s := NatToString(n);
      assert s[..|s| - 1] == NatToString(n / 10);
    }
  }

  /** Lowering is idempotent. */
  lemma LowerLower(s: string)
    ensures Lower(Lower(s)) == Lower(s)
  {
  }
}
