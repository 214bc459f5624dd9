/**
 * The string operations the bots rely on: Python's `str.strip()`, `str(int)`,
 * `int(str)` and `str.split(sep)`, SQLite's BINARY text order, and SQLite's
 * `LIKE` operator.
 */
module Text {
  import opened Common

  // ---------------------------------------------------------------- strip

  /** The characters Python's `str.isspace()` accepts, which `str.strip()` removes. */
  predicate IsSpace(c: char) {
    ('\t' <= c <= '\r') || ('\U{1C}' <= c <= '\U{1F}') || c == ' '
    || c == '\U{85}' || c == '\U{A0}' || c == '\U{1680}'
    || ('\U{2000}' <= c <= '\U{200A}') || c == '\U{2028}' || c == '\U{2029}'
    || c == '\U{202F}' || c == '\U{205F}' || c == '\U{3000}'
  }

  /** `s.lstrip()`: a suffix of `s` that starts with a non-space, all dropped characters spaces. */
  function TrimStart(s: string): (r: string)
    ensures |r| <= |s| && r == s[|s| - |r|..]
    ensures r == [] || !IsSpace(r[0])
    ensures forall i :: 0 <= i < |s| - |r| ==> IsSpace(s[i])
    decreases |s|
  {
    if |s| > 0 && IsSpace(s[0]) then TrimStart(s[1..]) else s
  }

  /** `s.rstrip()`: a prefix of `s` that ends with a non-space, all dropped characters spaces. */
  function TrimEnd(s: string): (r: string)
    ensures |r| <= |s| && r == s[..|r|]
    ensures r == [] || !IsSpace(r[|r| - 1])
    ensures forall i :: |r| <= i < |s| ==> IsSpace(s[i])
    decreases |s|
  {
    if |s| > 0 && IsSpace(s[|s| - 1]) then TrimEnd(s[..|s| - 1]) else s
  }

  /** How many characters `s.strip()` drops at the front. */
  function Leading(s: string): nat
  {
    |s| - |TrimStart(s)|
  }

  /**
   * `s.strip()`: the slice of `s` left after dropping whitespace at both ends;
   * it neither starts nor ends with whitespace, and everything dropped is whitespace.
   */
  function Strip(s: string): (r: string)
    ensures Leading(s) + |r| <= |s| && r == s[Leading(s)..Leading(s) + |r|]
    ensures r == [] || (!IsSpace(r[0]) && !IsSpace(r[|r| - 1]))
    ensures forall i :: 0 <= i < Leading(s) ==> IsSpace(s[i])
    ensures forall i :: Leading(s) + |r| <= i < |s| ==> IsSpace(s[i])
  {
    TrimEnd(TrimStart(s))
  }

  /** A string without whitespace at either end is left as it is by `strip()`. */
  lemma StripKeeps(s: string)
    requires s == [] || (!IsSpace(s[0]) && !IsSpace(s[|s| - 1]))
    ensures Strip(s) == s
  {
    var t := TrimStart(s);
    assert t == s by {
      if s != [] {
        assert !IsSpace(s[0]);
      }
    }
    assert TrimEnd(t) == t by {
      if t != [] {
        assert !IsSpace(t[|t| - 1]);
      }
    }
  }

  /** Stripping twice is stripping once: a stripped category name is its own canonical form. */
  lemma StripIdempotent(s: string)
    ensures Strip(Strip(s)) == Strip(s)
  {
    StripKeeps(Strip(s));
  }

  // ---------------------------------------------------------------- order

  /**
   * SQLite's BINARY collation on TEXT, which `ORDER BY title` and `ORDER BY name`
   * use: memcmp of the UTF-8 bytes, which is code point order, a proper prefix first.
   */
  predicate Less(a: string, b: string)
    decreases |a|
  {
    if |a| == 0 then |b| > 0
    else if |b| == 0 then false
    else if a[0] != b[0] then a[0] < b[0]
    else Less(a[1..], b[1..])
  }

  lemma {:induction false} LessIrreflexive(a: string)
    ensures !Less(a, a)
    decreases |a|
  {
    if |a| > 0 {
      LessIrreflexive(a[1..]);
    }
  }

  lemma {:induction false} LessTransitive(a: string, b: string, c: string)
    requires Less(a, b) && Less(b, c)
    ensures Less(a, c)
    decreases |a|
  {
    if |a| > 0 && a[0] == b[0] && b[0] == c[0] {
      LessTransitive(a[1..], b[1..], c[1..]);
    }
  }

  lemma {:induction false} LessTotal(a: string, b: string)
    requires a != b
    ensures Less(a, b) || Less(b, a)
    decreases |a|
  {
    if |a| > 0 && |b| > 0 && a[0] == b[0] {
      assert a == [a[0]] + a[1..] && b == [b[0]] + b[1..];
      LessTotal(a[1..], b[1..]);
    }
  }

  // ------------------------------------------------------- str(int), int(str)

  predicate IsDigit(c: char) {
    '0' <= c <= '9'
  }

  predicate AllDigits(s: string) {
    forall i :: 0 <= i < |s| ==> IsDigit(s[i])
  }

  function DigitChar(d: nat): char
    requires d < 10
  {
    ('0' as int + d) as char
  }

  /** `str(n)` for a non-negative integer: its decimal digits, no leading zero. */
  function NatToString(n: nat): (r: string)
    ensures |r| > 0 && AllDigits(r)
    ensures r[0] != '0' || n == 0
    decreases n
  {
    if n < 10 then [DigitChar(n)] else NatToString(n / 10) + [DigitChar(n % 10)]
  }

  /** `str(n)`: a minus sign before the digits of a negative number. */
  function IntToString(n: int): (r: string)
    ensures |r| > 0 && '_' !in r
    ensures n >= 0 ==> AllDigits(r)
  {
    if n < 0 then "-" + NatToString(-n) else NatToString(n)
  }

  /** The value of a string of decimal digits, most significant first. */
  function DigitsValue(s: string): nat
    requires AllDigits(s)
  {
    if |s| == 0 then 0
    else DigitsValue(s[..|s| - 1]) * 10 + (s[|s| - 1] as int - '0' as int)
  }

  /**
   * `int(s)`: surrounding whitespace, an optional sign, then decimal digits.
   * `None` is the `ValueError` Python raises for anything else.
   */
  function ParseInt(s: string): Option<int>
  {
    var t := Strip(s);
    if |t| > 1 && (t[0] == '-' || t[0] == '+') && AllDigits(t[1..]) then
      var v: int := DigitsValue(t[1..]);
      Some(if t[0] == '-' then -v else v)
    else if |t| > 0 && AllDigits(t) then
      Some(DigitsValue(t))
    else
      None
  }

  lemma {:induction false} DigitsRoundTrip(n: nat)
    ensures DigitsValue(NatToString(n)) == n
    decreases n
  {
    var s := NatToString(n);
    if n >= 10 {
      DigitsRoundTrip(n / 10);
      assert s[..|s| - 1] == NatToString(n / 10);
    }
  }

  /** `int(str(n)) == n` for every integer. */
  lemma IntToStringRoundTrip(n: int)
    ensures ParseInt(IntToString(n)) == Some(n)
  {
    var d := NatToString(if n < 0 then -n else n);
    DigitsRoundTrip(if n < 0 then -n else n);
    if n < 0 {
      ParseNegative(d);
    } else {
      ParseUnsigned(d);
    }
  }

  /** A run of digits parses to its value. */
  lemma ParseUnsigned(d: string)
    requires |d| > 0 && AllDigits(d)
    ensures ParseInt(d) == Some(DigitsValue(d))
  {
    assert IsDigit(d[0]) && IsDigit(d[|d| - 1]);
    StripKeeps(d);
  }

  /** A minus sign before a run of digits parses to the negated value. */
  lemma ParseNegative(d: string)
    requires |d| > 0 && AllDigits(d)
    ensures ParseInt("-" + d) == Some(-(DigitsValue(d) as int))
  {
    var s := "-" + d;
    assert s[1..] == d;
    assert !IsSpace(s[0]) && !IsSpace(s[|s| - 1]) by {
      assert s[|s| - 1] == d[|d| - 1] && IsDigit(d[|d| - 1]);
    }
    StripKeeps(s);
    assert |s| > 1 && s[0] == '-' && AllDigits(s[1..]);
  }

  // ---------------------------------------------------------------- split

  /** `s.split(sep)`: the pieces between separators; always at least one piece. */
  function Split(s: string, sep: char): (parts: seq<string>)
    ensures |parts| >= 1
    ensures forall i :: 0 <= i < |parts| ==> sep !in parts[i]
    decreases |s|
  {
    if |s| == 0 then [""]
    else
      var rest := Split(s[1..], sep);
      if s[0] == sep then [""] + rest else [[s[0]] + rest[0]] + rest[1..]
  }

  /** `sep.join(parts)`. */
  function Join(parts: seq<string>, sep: char): string
    requires |parts| >= 1
    decreases |parts|
  {
    if |parts| == 1 then parts[0] else parts[0] + [sep] + Join(parts[1..], sep)
  }

  /** Joining the pieces of a split gives the string back. */
  lemma {:induction false} SplitThenJoin(s: string, sep: char)
    ensures Join(Split(s, sep), sep) == s
    decreases |s|
  {
    if |s| > 0 {
      var rest := Split(s[1..], sep);
      SplitThenJoin(s[1..], sep);
      if s[0] != sep && |rest| > 1 {
        assert Join([[s[0]] + rest[0]] + rest[1..], sep)
            == [s[0]] + rest[0] + [sep] + Join(rest[1..], sep);
        assert Join(rest, sep) == rest[0] + [sep] + Join(rest[1..], sep);
      }
    }
  }

  lemma {:induction false} SplitPrefix(a: string, t: string, sep: char)
    requires sep !in a
    ensures Split(a + t, sep) == [a + Split(t, sep)[0]] + Split(t, sep)[1..]
    decreases |a|
  {
    if |a| > 0 {
      assert (a + t)[1..] == a[1..] + t;
      SplitPrefix(a[1..], t, sep);
      assert [a[0]] + (a[1..] + Split(t, sep)[0]) == a + Split(t, sep)[0];
    } else {
      var parts := Split(t, sep);
      assert a + t == t;
      assert a + parts[0] == parts[0];
      assert parts == [parts[0]] + parts[1..];
    }
  }

  /** Splitting a join of separator-free pieces gives the pieces back. */
  lemma {:induction false} JoinThenSplit(parts: seq<string>, sep: char)
    requires |parts| >= 1
    requires forall i :: 0 <= i < |parts| ==> sep !in parts[i]
    ensures Split(Join(parts, sep), sep) == parts
    decreases |parts|
  {
    if |parts| == 1 {
      SplitPrefix(parts[0], "", sep);
      assert parts[0] + "" == parts[0];
    } else {
      var tail := Join(parts[1..], sep);
      JoinThenSplit(parts[1..], sep);
      assert ([sep] + tail)[1..] == tail;
      assert Split([sep] + tail, sep) == [""] + parts[1..];
      assert Join(parts, sep) == parts[0] + ([sep] + tail);
      SplitPrefix(parts[0], [sep] + tail, sep);
      assert parts[0] + "" == parts[0];
      assert parts == [parts[0]] + parts[1..];
    }
  }

  /** `s.startswith(p)`. */
  predicate StartsWith(s: string, p: string) {
    |p| <= |s| && s[..|p|] == p
  }

  lemma StartsWithConcat(p: string, rest: string)
    ensures StartsWith(p + rest, p)
  {
    assert (p + rest)[..|p|] == p;
  }

  /** Strings that differ in their first character do not start with each other. */
  lemma FirstCharDiffers(s: string, p: string)
    requires |s| > 0 && |p| > 0 && s[0] != p[0]
    ensures !StartsWith(s, p) && s != p
  {
  }

  // ----------------------------------------------------------------- LIKE

  /** SQLite folds case for ASCII letters only when it evaluates LIKE. */
  function FoldAscii(c: char): char {
    if 'A' <= c <= 'Z' then (c as int + 32) as char else c
  }

  /**
   * SQLite's `s LIKE p` without an ESCAPE clause: `%` matches any run of
   * characters, `_` exactly one, every other character itself up to ASCII case.
   */
  predicate Like(p: string, s: string)
    decreases |p| + |s|
  {
    if |p| == 0 then |s| == 0
    else if p[0] == '%' then Like(p[1..], s) || (|s| > 0 && Like(p, s[1..]))
    else |s| > 0 && (p[0] == '_' || FoldAscii(p[0]) == FoldAscii(s[0])) && Like(p[1..], s[1..])
  }

  predicate NoWildcards(q: string) {
    '%' !in q && '_' !in q
  }

  /** `q` occurs in `s` at position `i`, up to ASCII case. */
  predicate OccursAt(q: string, s: string, i: int) {
    0 <= i && i + |q| <= |s| && forall k :: 0 <= k < |q| ==> FoldAscii(q[k]) == FoldAscii(s[i + k])
  }

  lemma {:induction false} LikeAnything(s: string)
    ensures Like("%", s)
    decreases |s|
  {
    if |s| > 0 {
      LikeAnything(s[1..]);
    }
  }

  lemma {:induction false} LikeLiteral(q: string, rest: string, s: string)
    requires NoWildcards(q)
    ensures Like(q + rest, s) <==> OccursAt(q, s, 0) && Like(rest, s[|q|..])
    decreases |q|
  {
    if |q| > 0 {
      assert (q + rest)[1..] == q[1..] + rest;
      if |s| > 0 {
        LikeLiteral(q[1..], rest, s[1..]);
        if |q| <= |s| {
          assert s[1..][|q| - 1..] == s[|q|..];
        }
        if OccursAt(q[1..], s[1..], 0) && FoldAscii(q[0]) == FoldAscii(s[0]) {
          assert OccursAt(q, s, 0) by {
            forall k | 0 <= k < |q| ensures FoldAscii(q[k]) == FoldAscii(s[k]) {
              if k > 0 {
                assert q[1..][k - 1] == q[k] && s[1..][k - 1] == s[k];
              }
            }
          }
        }
        if OccursAt(q, s, 0) {
          assert OccursAt(q[1..], s[1..], 0) by {
            forall k | 0 <= k < |q| - 1 ensures FoldAscii(q[1..][k]) == FoldAscii(s[1..][k]) {
              assert q[1..][k] == q[k + 1] && s[1..][k] == s[k + 1];
            }
          }
        }
      }
    } else {
      assert q + rest == rest;
    }
  }

  lemma {:induction false} LikePercent(p: string, s: string)
    ensures Like("%" + p, s) <==> exists i :: 0 <= i <= |s| && Like(p, s[i..])
    decreases |s|
  {
    assert ("%" + p)[1..] == p;
    assert s[0..] == s;
    if |s| > 0 {
      LikePercent(p, s[1..]);
      if exists i :: 0 <= i <= |s| && Like(p, s[i..]) {
        var i :| 0 <= i <= |s| && Like(p, s[i..]);
        if i > 0 {
          assert s[1..][i - 1..] == s[i..];
        }
      }
      if exists i :: 0 <= i <= |s| - 1 && Like(p, s[1..][i..]) {
        var i :| 0 <= i <= |s| - 1 && Like(p, s[1..][i..]);
        assert s[1..][i..] == s[i + 1..];
      }
    }
  }

  /**
   * `title LIKE '%' || q || '%'` for a query without wildcards holds exactly
   * when `q` occurs somewhere in `title`, up to ASCII case.
   */
  lemma LikeIsSubstring(q: string, s: string)
    requires NoWildcards(q)
    ensures Like("%" + q + "%", s) <==> exists i :: OccursAt(q, s, i)
  {
    assert "%" + q + "%" == "%" + (q + "%");
    LikePercent(q + "%", s);
    forall i | 0 <= i <= |s|
      ensures Like(q + "%", s[i..]) <==> OccursAt(q, s, i)
    {
      LikeLiteral(q, "%", s[i..]);
      if i + |q| <= |s| {
        LikeAnything(s[i..][|q|..]);
      }
      if OccursAt(q, s[i..], 0) {
        forall k | 0 <= k < |q| ensures FoldAscii(q[k]) == FoldAscii(s[i + k]) {
          assert s[i..][k] == s[i + k];
        }
      }
      if OccursAt(q, s, i) {
        forall k | 0 <= k < |q| ensures FoldAscii(q[k]) == FoldAscii(s[i..][k]) {
          assert s[i..][k] == s[i + k];
        }
      }
    }
  }

  /** A `word_<id>` token splits on `_` into the word and the digits of the id. */
  lemma TokenParts(word: string, n: int)
    requires '_' !in word
    ensures Split(word + "_" + IntToString(n), '_') == [word, IntToString(n)]
  {
    var s := IntToString(n);
    assert [word, s][1..] == [s];
    assert Join([word, s], '_') == word + "_" + s;
    JoinThenSplit([word, s], '_');
  }

  /**
   * The id a button token carries: `int(data.split("_")[1])`, `None` where that
   * raises (no second piece, or one `int()` rejects).
   */
  function TokenId(data: string): Option<int>
  {
    var parts := Split(data, '_');
    if |parts| < 2 then None else ParseInt(parts[1])
  }

  /** `word_<id>` carries `id` back. */
  lemma TokenIdRoundTrip(word: string, n: int)
    requires '_' !in word
    ensures TokenId(word + "_" + IntToString(n)) == Some(n)
  {
    TokenParts(word, n);
    IntToStringRoundTrip(n);
  }

  /** The characters of `s` up to its first whitespace character. */
  function UntilSpace(s: string): (w: string)
    ensures |w| <= |s| && w == s[..|w|]
    ensures forall i :: 0 <= i < |w| ==> !IsSpace(w[i])
    ensures |w| < |s| ==> IsSpace(s[|w|])
    decreases |s|
  {
    if |s| == 0 || IsSpace(s[0]) then "" else [s[0]] + UntilSpace(s[1..])
  }

  /** `text.split(maxsplit=1)[0]`, or "" for a text that is all whitespace. */
  function FirstWord(text: string): string
  {
    UntilSpace(TrimStart(text))
  }

  /**
   * The chat framework's `Command(name)` filter: the first word is `/name`.
   * A word carrying an `@mention` is not matched here.
   */
  predicate IsCommand(text: string, name: string) {
    var w := FirstWord(text);
    |w| > 0 && w[0] == '/' && w[1..] == name
  }

  /** A text that starts with a character other than `/` and whitespace is no command. */
  lemma NotCommand(text: string, name: string)
    requires |text| > 0 && text[0] != '/' && !IsSpace(text[0])
    ensures !IsCommand(text, name)
  {
    assert TrimStart(text) == text;
    assert FirstWord(text)[0] == text[0];
  }
}
