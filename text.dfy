/**
 * The pieces of Rust's standard library that the history reader leans on,
 * written out: `split` and `splitn` on a single separator, `trim`,
 * `starts_with`, and `u64::from_str`, plus the decimal rendering `{}` uses
 * for an unsigned integer.
 */
module Text {
  import opened Wrappers

  /** Largest u64 plus one. */
  const U64_LIMIT: nat := 0x1_0000_0000_0000_0000

  type U64 = n: nat | n < U64_LIMIT

  /* ---------------------------------------------------------------- split */

  /**
   * `split(sep)`: the maximal runs between separators, left to right.
   * There is always at least one piece; an empty input gives one empty piece.
   */
  function Split<T(==)>(s: seq<T>, sep: T): (r: seq<seq<T>>)
    ensures |r| >= 1
  {
    if s == [] then [[]]
    else
      var rest := Split(s[1..], sep);
      if s[0] == sep then [[]] + rest
      else [[s[0]] + rest[0]] + rest[1..]
  }

  /** The pieces glued back together with `sep` between consecutive ones. */
  function Join<T>(pieces: seq<seq<T>>, sep: seq<T>): seq<T>
  {
    if |pieces| == 0 then []
    else if |pieces| == 1 then pieces[0]
    else pieces[0] + sep + Join(pieces[1..], sep)
  }

  /**
   * `splitn(n, sep)`: like `split`, but stops after `n - 1` separators, so
   * the last piece keeps every further separator verbatim.
   */
  function SplitN<T(==)>(s: seq<T>, sep: T, n: nat): (r: seq<seq<T>>)
    requires n >= 1
    ensures 1 <= |r| <= n
  {
    var parts := Split(s, sep);
    if |parts| <= n then parts else parts[..n - 1] + [Join(parts[n - 1..], [sep])]
  }

  lemma {:induction false} JoinCons<T>(p: seq<T>, pieces: seq<seq<T>>, sep: seq<T>)
    requires |pieces| >= 1
    ensures Join([p] + pieces, sep) == p + sep + Join(pieces, sep)
  {
    assert ([p] + pieces)[1..] == pieces;
  }

  /** Prefixing the first piece prefixes the joined whole. */
  lemma {:induction false} JoinExtendFirst<T>(x: T, pieces: seq<seq<T>>, sep: seq<T>)
    requires |pieces| >= 1
    ensures Join([[x] + pieces[0]] + pieces[1..], sep) == [x] + Join(pieces, sep)
  {
    if |pieces| > 1 {
      JoinCons([x] + pieces[0], pieces[1..], sep);
      JoinCons(pieces[0], pieces[1..], sep);
      assert pieces == [pieces[0]] + pieces[1..];
    }
  }

  /** Splitting and joining again gives back the input. */
  lemma {:induction false} JoinSplit<T>(s: seq<T>, sep: T)
    ensures Join(Split(s, sep), [sep]) == s
  {
    if s != [] {
      var rest := Split(s[1..], sep);
      JoinSplit(s[1..], sep);
      if s[0] == sep {
        JoinCons([], rest, [sep]);
      } else {
        JoinExtendFirst(s[0], rest, [sep]);
      }
      assert s == [s[0]] + s[1..];
    }
  }

  /** No piece of a split holds the separator. */
  lemma {:induction false} SplitPiecesFree<T>(s: seq<T>, sep: T)
    ensures forall k :: 0 <= k < |Split(s, sep)| ==> sep !in Split(s, sep)[k]
  {
    if s != [] {
      SplitPiecesFree(s[1..], sep);
    }
  }

  /** A separator-free sequence splits into itself alone. */
  lemma {:induction false} SplitNoSep<T>(s: seq<T>, sep: T)
    requires sep !in s
    ensures Split(s, sep) == [s]
  {
    if s != [] {
      SplitNoSep(s[1..], sep);
      assert [s[0]] + s[1..] == s;
    }
  }

  /** A separator in the middle cuts the split into the splits of both sides. */
  lemma {:induction false} SplitConcat<T>(x: seq<T>, sep: T, y: seq<T>)
    ensures Split(x + [sep] + y, sep) == Split(x, sep) + Split(y, sep)
  {
    if x == [] {
      assert [sep] + y == x + [sep] + y;
      assert ([sep] + y)[1..] == y;
    } else {
      var s := x + [sep] + y;
      assert s[1..] == x[1..] + [sep] + y;
      SplitConcat(x[1..], sep, y);
    }
  }

  /** Extending the last piece commutes with prefixing the first. */
  lemma ExtendLastOfCons<T>(x: T, q: seq<seq<T>>, y: seq<T>)
    requires |q| >= 1
    ensures var p := [[x] + q[0]] + q[1..];
      var q' := q[..|q| - 1] + [q[|q| - 1] + y];
      p[..|p| - 1] + [p[|p| - 1] + y] == [[x] + q'[0]] + q'[1..]
  {
    var p := [[x] + q[0]] + q[1..];
    var q' := q[..|q| - 1] + [q[|q| - 1] + y];
    if |q| == 1 {
      assert [x] + q[0] + y == [x] + (q[0] + y);
    } else {
      assert q'[0] == q[0];
      assert q'[1..] == q[1..|q| - 1] + [q[|q| - 1] + y];
      assert p[..|p| - 1] == [[x] + q[0]] + q[1..|q| - 1];
    }
  }

  /** Text without a separator extends the last piece of a split. */
  lemma {:induction false} SplitExtendLast<T>(x: seq<T>, sep: T, y: seq<T>)
    requires sep !in y
    ensures var p := Split(x, sep);
      Split(x + y, sep) == p[..|p| - 1] + [p[|p| - 1] + y]
  {
    if x == [] {
      SplitNoSep(y, sep);
      assert x + y == y;
      assert [] + y == y;
    } else {
      assert (x + y)[0] == x[0];
      assert (x + y)[1..] == x[1..] + y;
      SplitExtendLast(x[1..], sep, y);
      var q := Split(x[1..], sep);
      if x[0] == sep {
        assert Split(x, sep) == [[]] + q;
        assert ([[]] + q)[..|q|] == [[]] + q[..|q| - 1];
      } else {
        ExtendLastOfCons(x[0], q, y);
      }
    }
  }

  /** Splitting undoes joining, when no piece holds the separator. */
  lemma {:induction false} SplitJoin<T>(pieces: seq<seq<T>>, sep: T)
    requires |pieces| >= 1
    requires forall k :: 0 <= k < |pieces| ==> sep !in pieces[k]
    ensures Split(Join(pieces, [sep]), sep) == pieces
  {
    if |pieces| == 1 {
      SplitNoSep(pieces[0], sep);
    } else {
      SplitJoin(pieces[1..], sep);
      SplitConcat(pieces[0], sep, Join(pieces[1..], [sep]));
      SplitNoSep(pieces[0], sep);
      assert pieces == [pieces[0]] + pieces[1..];
    }
  }

  /** Joining a tail of pieces first and then the whole gives the same as joining all at once. */
  lemma {:induction false} JoinTail<T>(a: seq<seq<T>>, b: seq<seq<T>>, sep: seq<T>)
    requires |b| >= 1
    ensures Join(a + [Join(b, sep)], sep) == Join(a + b, sep)
  {
    if |a| == 0 {
      assert a + [Join(b, sep)] == [Join(b, sep)];
      assert a + b == b;
    } else {
      JoinTail(a[1..], b, sep);
      assert (a + [Join(b, sep)])[1..] == a[1..] + [Join(b, sep)];
      assert (a + b)[1..] == a[1..] + b;
      JoinCons(a[0], a[1..] + [Join(b, sep)], sep);
      assert a + [Join(b, sep)] == [a[0]] + (a[1..] + [Join(b, sep)]);
      JoinCons(a[0], a[1..] + b, sep);
      assert a + b == [a[0]] + (a[1..] + b);
    }
  }

  /**
   * What `splitn` promises: between 1 and `n` pieces that join back to the
   * input, every piece but the last free of the separator, and the last one
   * free of it too when fewer than `n` pieces came out.
   */
  lemma SplitNShape<T>(s: seq<T>, sep: T, n: nat)
    requires n >= 1
    ensures var r := SplitN(s, sep, n);
      1 <= |r| <= n && Join(r, [sep]) == s &&
      (forall k :: 0 <= k < |r| - 1 ==> sep !in r[k]) &&
      (|r| < n ==> sep !in r[|r| - 1])
  {
    var parts := Split(s, sep);
    JoinSplit(s, sep);
    SplitPiecesFree(s, sep);
    if |parts| > n {
      JoinTail(parts[..n - 1], parts[n - 1..], [sep]);
      assert parts[..n - 1] + parts[n - 1..] == parts;
    }
  }

  /** Three pieces of `splitn(3, sep)` are the text before the first separator, between the first two, and the rest. */
  lemma SplitN3Pieces(s: seq<char>, sep: char)
    requires |SplitN(s, sep, 3)| == 3
    ensures var r := SplitN(s, sep, 3);
      sep !in r[0] && sep !in r[1] && s == r[0] + [sep] + r[1] + [sep] + r[2]
  {
    var r := SplitN(s, sep, 3);
    SplitNShape(s, sep, 3);
    assert sep !in r[0] && sep !in r[1];
    JoinCons(r[1], r[2..], [sep]);
    assert r[1..] == [r[1]] + r[2..];
    JoinCons(r[0], r[1..], [sep]);
    assert r == [r[0]] + r[1..];
  }

  /** A text of the form `a sep b sep c`, with no separator in `a` or `b`, splits three ways into exactly those. */
  lemma SplitN3(a: seq<char>, b: seq<char>, c: seq<char>, sep: char)
    requires sep !in a && sep !in b
    ensures SplitN(a + [sep] + b + [sep] + c, sep, 3) == [a, b, c]
  {
    SplitConcat(a, sep, b + [sep] + c);
    assert a + [sep] + b + [sep] + c == a + [sep] + (b + [sep] + c);
    SplitConcat(b, sep, c);
    SplitNoSep(a, sep);
    SplitNoSep(b, sep);
    var parts := Split(a + [sep] + b + [sep] + c, sep);
    assert parts == [a, b] + Split(c, sep);
    JoinSplit(c, sep);
    if |Split(c, sep)| > 1 {
      assert parts[2..] == Split(c, sep);
    } else {
      assert Split(c, sep) == [Join(Split(c, sep), [sep])];
    }
  }

  /* ---------------------------------------------------------------- trim */

  /** Unicode White_Space, the set `char::is_whitespace` and `trim` use. */
  predicate IsWhitespace(c: char)
  {
    ('\t' <= c <= '\r') || c == ' ' || c == '\U{0085}' || c == '\U{00A0}' ||
    c == '\U{1680}' || ('\U{2000}' <= c <= '\U{200A}') || c == '\U{2028}' ||
    c == '\U{2029}' || c == '\U{202F}' || c == '\U{205F}' || c == '\U{3000}'
  }

  predicate AllWhitespace(s: string)
  {
    forall k :: 0 <= k < |s| ==> IsWhitespace(s[k])
  }

  /** Neither end of `s` is whitespace (true of the empty text). */
  predicate Trimmed(s: string)
  {
    s == [] || (!IsWhitespace(s[0]) && !IsWhitespace(s[|s| - 1]))
  }

  /** How many whitespace characters `s` starts with. */
  function LeadingWhitespace(s: string): (n: nat)
    ensures n <= |s|
  {
    if s != [] && IsWhitespace(s[0]) then 1 + LeadingWhitespace(s[1..]) else 0
  }

  /** How many whitespace characters `s` ends with. */
  function TrailingWhitespace(s: string): (n: nat)
    ensures n <= |s|
  {
    if s != [] && IsWhitespace(s[|s| - 1]) then 1 + TrailingWhitespace(s[..|s| - 1]) else 0
  }

  function TrimStart(s: string): string
  {
    s[LeadingWhitespace(s)..]
  }

  function TrimEnd(s: string): string
  {
    s[..|s| - TrailingWhitespace(s)]
  }

  /** `str::trim`: whitespace removed from both ends. */
  function Trim(s: string): string
  {
    TrimEnd(TrimStart(s))
  }

  /** The leading count stops at the first character that is not whitespace. */
  lemma {:induction false} LeadingWhitespaceStops(s: string)
    ensures var n := LeadingWhitespace(s);
      AllWhitespace(s[..n]) && (n == |s| || !IsWhitespace(s[n]))
  {
    if s != [] && IsWhitespace(s[0]) {
      LeadingWhitespaceStops(s[1..]);
      var n := LeadingWhitespace(s);
      assert s[..n] == [s[0]] + s[1..][..n - 1];
    }
  }

  /** The trailing count stops at the last character that is not whitespace. */
  lemma {:induction false} TrailingWhitespaceStops(s: string)
    ensures var n := TrailingWhitespace(s);
      AllWhitespace(s[|s| - n..]) && (n == |s| || !IsWhitespace(s[|s| - n - 1]))
  {
    if s != [] && IsWhitespace(s[|s| - 1]) {
      var p := s[..|s| - 1];
      TrailingWhitespaceStops(p);
      var n := TrailingWhitespace(s);
      assert s[|s| - n..] == p[|p| - (n - 1)..] + [s[|s| - 1]];
    }
  }

  lemma {:induction false} LeadingWhitespaceOf(w: string, t: string)
    requires AllWhitespace(w)
    requires t == [] || !IsWhitespace(t[0])
    ensures LeadingWhitespace(w + t) == |w|
  {
    if w != [] {
      assert (w + t)[1..] == w[1..] + t;
      LeadingWhitespaceOf(w[1..], t);
    }
  }

  lemma {:induction false} TrailingWhitespaceOf(t: string, w: string)
    requires AllWhitespace(w)
    requires t == [] || !IsWhitespace(t[|t| - 1])
    ensures TrailingWhitespace(t + w) == |w|
  {
    if w != [] {
      assert (t + w)[..|t + w| - 1] == t + w[..|w| - 1];
      TrailingWhitespaceOf(t, w[..|w| - 1]);
    }
  }

  /** `trim` strips exactly the whitespace around a text whose ends are not whitespace. */
  lemma TrimSpec(w1: string, t: string, w2: string)
    requires AllWhitespace(w1) && AllWhitespace(w2) && Trimmed(t)
    ensures Trim(w1 + t + w2) == t
  {
    if t == [] {
      assert w1 + t + w2 == w1 + w2;
      LeadingWhitespaceOf(w1 + w2, []);
      assert w1 + w2 + [] == w1 + w2;
    } else {
      assert w1 + t + w2 == w1 + (t + w2);
      LeadingWhitespaceOf(w1, t + w2);
      TrailingWhitespaceOf(t, w2);
    }
  }

  /** `trim` keeps the slice between the leading and the trailing whitespace. */
  lemma TrimSlice(s: string)
    ensures LeadingWhitespace(s) + |Trim(s)| <= |s|
    ensures Trim(s) == s[LeadingWhitespace(s)..LeadingWhitespace(s) + |Trim(s)|]
  {
    var i := LeadingWhitespace(s);
    var a := s[i..];
    var r := a[..|a| - TrailingWhitespace(a)];
    assert Trim(s) == r;
    assert r == s[i..i + |r|];
  }

  /**
   * The result of `trim` is the slice of its input that starts where the
   * leading whitespace ends, with only whitespace before and after it.
   */
  lemma TrimCuts(s: string)
    ensures LeadingWhitespace(s) + |Trim(s)| <= |s|
    ensures Trim(s) == s[LeadingWhitespace(s)..LeadingWhitespace(s) + |Trim(s)|]
    ensures AllWhitespace(s[..LeadingWhitespace(s)])
    ensures AllWhitespace(s[LeadingWhitespace(s) + |Trim(s)|..])
  {
    TrimSlice(s);
    var i := LeadingWhitespace(s);
    var a := s[i..];
    var j := TrailingWhitespace(a);
    LeadingWhitespaceStops(s);
    TrailingWhitespaceStops(a);
    assert |Trim(s)| == |a| - j;
    assert s[i + |Trim(s)|..] == a[|a| - j..];
  }

  /** Neither end of a trimmed text is whitespace. */
  lemma TrimTrimmed(s: string)
    ensures Trimmed(Trim(s))
  {
    var i := LeadingWhitespace(s);
    var a := s[i..];
    var j := TrailingWhitespace(a);
    var r := a[..|a| - j];
    LeadingWhitespaceStops(s);
    TrailingWhitespaceStops(a);
    if r != [] {
      assert r[0] == s[i];
      assert r[|r| - 1] == a[|a| - j - 1];
    }
  }

  /** `s.trim().is_empty()` holds exactly of the all-whitespace texts. */
  lemma TrimEmpty(s: string)
    ensures Trim(s) == [] <==> AllWhitespace(s)
  {
    if AllWhitespace(s) {
      TrimSpec(s, [], []);
      assert s + [] + [] == s;
    }
    if Trim(s) == [] {
      TrimCuts(s);
      var i := LeadingWhitespace(s);
      assert s == s[..i] + s[i..];
    }
  }

  /* ------------------------------------------------------- unsigned parse */

  predicate IsDigit(c: char)
  {
    '0' <= c <= '9'
  }

  predicate AllDigits(s: string)
  {
    forall k :: 0 <= k < |s| ==> IsDigit(s[k])
  }

  function DigitChar(d: nat): (c: char)
    requires d < 10
    ensures IsDigit(c) && c as int - '0' as int == d
  {
    ('0' as int + d) as char
  }

  /** The number a string of decimal digits denotes, most significant first. */
  function DigitsValue(s: string): nat
    requires AllDigits(s)
  {
    if s == [] then 0
    else DigitsValue(s[..|s| - 1]) * 10 + (s[|s| - 1] as int - '0' as int)
  }

  /**
   * `u64::from_str`: an optional leading `+`, then at least one ASCII digit,
   * denoting a value that fits in 64 bits. Anything else is an error.
   */
  function ParseU64(s: string): (r: Option<U64>)
  {
    var digits := if |s| > 0 && s[0] == '+' then s[1..] else s;
    if digits == [] || !AllDigits(digits) then None
    else
      var v := DigitsValue(digits);
      if v < U64_LIMIT then Some(v) else None
  }

  /** `format!("{}", n)` for an unsigned integer: decimal, no leading zeros. */
  function Decimal(n: nat): (r: string)
    ensures |r| >= 1 && AllDigits(r)
    ensures r[0] != '0' || n == 0
  {
    if n < 10 then [DigitChar(n)] else Decimal(n / 10) + [DigitChar(n % 10)]
  }

  lemma {:induction false} DecimalValue(n: nat)
    ensures DigitsValue(Decimal(n)) == n
  {
    if n >= 10 {
      var d := Decimal(n);
      assert d[..|d| - 1] == Decimal(n / 10);
      DecimalValue(n / 10);
    }
  }

  /** Parsing the decimal rendering of an in-range number gives the number back. */
  lemma DecimalRoundTrip(n: nat)
    requires n < U64_LIMIT
    ensures ParseU64(Decimal(n)) == Some(n)
  {
    DecimalValue(n);
  }

  /** `k` zero digits. */
  function Zeros(k: nat): (z: string)
    ensures |z| == k && AllDigits(z)
  {
    seq(k, i => '0')
  }

  lemma {:induction false} ZerosValue(k: nat)
    ensures DigitsValue(Zeros(k)) == 0
  {
    if k > 0 {
      assert Zeros(k)[..k - 1] == Zeros(k - 1);
      ZerosValue(k - 1);
    }
  }

  /** Leading zeros do not change the value of a digit string. */
  lemma {:induction false} LeadingZerosValue(k: nat, d: string)
    requires AllDigits(d)
    ensures AllDigits(Zeros(k) + d) && DigitsValue(Zeros(k) + d) == DigitsValue(d)
    decreases |d|
  {
    var s := Zeros(k) + d;
    assert AllDigits(s) by {
      forall i | 0 <= i < |s|
        ensures IsDigit(s[i])
      {
        if i >= k {
          assert s[i] == d[i - k];
        }
      }
    }
    if d == [] {
      assert s == Zeros(k);
      ZerosValue(k);
    } else {
      var p := d[..|d| - 1];
      assert s[..|s| - 1] == Zeros(k) + p;
      assert s[|s| - 1] == d[|d| - 1];
      LeadingZerosValue(k, p);
    }
  }

  /** A digit string is worth at least its first digit. */
  lemma {:induction false} DigitsValueFirst(d: string)
    requires AllDigits(d) && d != []
    ensures DigitsValue(d) >= d[0] as int - '0' as int
    decreases |d|
  {
    if |d| > 1 {
      DigitsValueFirst(d[..|d| - 1]);
    }
  }

  /** A digit string without a leading zero is the decimal rendering of its value. */
  lemma {:induction false} DecimalUnique(d: string)
    requires AllDigits(d) && d != [] && d[0] != '0'
    ensures d == Decimal(DigitsValue(d))
    decreases |d|
  {
    var n := DigitsValue(d);
    var last := d[|d| - 1];
    var v := last as int - '0' as int;
    if |d| == 1 {
      assert d[..|d| - 1] == [];
      assert DigitsValue(d[..|d| - 1]) == 0;
      assert n == v;
      assert DigitChar(n) as int == last as int;
      assert Decimal(n) == [last];
    } else {
      var p := d[..|d| - 1];
      assert p[0] == d[0];
      DigitsValueFirst(p);
      DecimalUnique(p);
      assert n == DigitsValue(p) * 10 + v;
      assert n / 10 == DigitsValue(p) && n % 10 == v;
      assert DigitChar(n % 10) as int == last as int;
      assert d == p + [last];
    }
  }

  /** Proof helper for `LeadingZeroStep`: one zero in front of m zeros is m + 1 zeros. */
  lemma ZerosCons(m: nat)
    ensures Zeros(1) + Zeros(m) == Zeros(m + 1)
  {
  }

  /**
   * Proof helper for `LeadingZeroStep`: concatenation regroups. Kept apart so
   * that this equality is proved on its own rather than among that lemma's facts.
   */
  lemma ConcatAssoc<T>(a: seq<T>, b: seq<T>, c: seq<T>)
    ensures a + (b + c) == a + b + c
  {
  }

  /** A leading zero does not change the value. */
  lemma LeadingZeroValue(d: string)
    requires AllDigits(d) && |d| > 1 && d[0] == '0'
    ensures d == Zeros(1) + d[1..] && AllDigits(d[1..]) && DigitsValue(d) == DigitsValue(d[1..])
  {
    assert d == Zeros(1) + d[1..];
    LeadingZerosValue(1, d[1..]);
  }

  /** One more leading zero keeps a digit string in the form zeros-then-rendering. */
  lemma LeadingZeroStep(d: string)
    requires AllDigits(d) && |d| > 1 && d[0] == '0'
    requires |Decimal(DigitsValue(d[1..]))| <= |d[1..]|
    requires d[1..] == Zeros(|d[1..]| - |Decimal(DigitsValue(d[1..]))|) + Decimal(DigitsValue(d[1..]))
    ensures |Decimal(DigitsValue(d))| <= |d|
    ensures d == Zeros(|d| - |Decimal(DigitsValue(d))|) + Decimal(DigitsValue(d))
  {
    var rest := d[1..];
    var dec := Decimal(DigitsValue(rest));
    var m := |rest| - |dec|;
    LeadingZeroValue(d);
    ZerosCons(m);
    ConcatAssoc(Zeros(1), Zeros(m), dec);
  }

  /** Every digit string is some zeros followed by the decimal rendering of its value. */
  lemma {:induction false} DigitsCanonical(d: string)
    requires AllDigits(d) && d != []
    ensures |Decimal(DigitsValue(d))| <= |d|
    ensures d == Zeros(|d| - |Decimal(DigitsValue(d))|) + Decimal(DigitsValue(d))
    decreases |d|
  {
    if d[0] != '0' {
      DecimalUnique(d);
      assert Zeros(0) + d == d;
    } else if |d| == 1 {
      assert d == "0" && DigitsValue(d) == 0;
      assert Decimal(0) == [DigitChar(0)] == "0";
      assert Zeros(0) + d == d;
    } else {
      DigitsCanonical(d[1..]);
      LeadingZeroStep(d);
    }
  }

  /** The optional sign `u64::from_str` skips: `"+"` or nothing. */
  function SignOf(s: string): (sign: string)
    ensures sign == "" || sign == "+"
  {
    if s != [] && s[0] == '+' then "+" else ""
  }

  /** A sign and digits are the sign, some zeros, and the rendering of the digits' value. */
  lemma SignedDigitsCanonical(sign: string, digits: string)
    requires AllDigits(digits) && digits != []
    ensures |Decimal(DigitsValue(digits))| <= |digits|
    ensures sign + digits ==
      sign + Zeros(|digits| - |Decimal(DigitsValue(digits))|) + Decimal(DigitsValue(digits))
  {
    DigitsCanonical(digits);
  }

  /** An accepted string is its optional `+` and then digits, whose value is the result. */
  lemma ParseU64Split(s: string)
    requires ParseU64(s).Some?
    ensures var digits := s[|SignOf(s)|..];
      s == SignOf(s) + digits && digits != [] && AllDigits(digits) &&
      ParseU64(s).value == DigitsValue(digits)
  {
  }

  /**
   * What `u64::from_str` accepts, read back through the rendering: an
   * optional `+`, any number of zeros, and then the decimal form `{}`
   * prints for the value.
   */
  lemma ParseU64Canonical(s: string)
    requires ParseU64(s).Some?
    ensures |SignOf(s)| + |Decimal(ParseU64(s).value)| <= |s|
    ensures s == SignOf(s) + Zeros(|s| - |SignOf(s)| - |Decimal(ParseU64(s).value)|) + Decimal(ParseU64(s).value)
  {
    ParseU64Split(s);
    SignedDigitsCanonical(SignOf(s), s[|SignOf(s)|..]);
  }

  /** A sign followed by digits parses to the value of the digits, when it fits. */
  lemma ParseU64Digits(sign: string, digits: string)
    requires sign == "" || sign == "+"
    requires digits != [] && AllDigits(digits)
    ensures ParseU64(sign + digits) == if DigitsValue(digits) < U64_LIMIT then Some(DigitsValue(digits)) else None
  {
    var s := sign + digits;
    if sign == "" {
      assert s == digits;
      assert s[0] != '+' by {
        assert IsDigit(digits[0]);
      }
    } else {
      assert s[0] == '+' && s[1..] == digits;
    }
  }

  /**
   * Conversely, every in-range value is accepted in each of those spellings:
   * with or without `+`, behind any number of zeros.
   */
  lemma ParseU64Padded(sign: string, k: nat, n: nat)
    requires sign == "" || sign == "+"
    requires n < U64_LIMIT
    ensures ParseU64(sign + Zeros(k) + Decimal(n)) == Some(n)
  {
    var digits := Zeros(k) + Decimal(n);
    assert sign + Zeros(k) + Decimal(n) == sign + digits;
    LeadingZerosValue(k, Decimal(n));
    DecimalValue(n);
    ParseU64Digits(sign, digits);
  }

  /** `str::starts_with`. */
  predicate StartsWith(s: string, prefix: string)
  {
    prefix <= s
  }
}
