/** The C library string helpers the request parser relies on (strstr,
    strncasecmp, atoi, strncpy and the "%Ns" conversion of sscanf), stated as
    pure functions over byte sequences. A C `char` is modelled as a Dafny
    `char`; a C string held in a buffer ends at the first NUL byte. */
module CStrings {

  datatype Option<T> = None | Some(value: T)

  const NUL: char := 0 as char

  /** strlen: the index of the first NUL in `s`, or |s| when there is none. */
  function CLen(s: seq<char>): (n: nat)
    ensures n <= |s|
    ensures forall i :: 0 <= i < n ==> s[i] != NUL
    ensures n < |s| ==> s[n] == NUL
  {
    if s == [] || s[0] == NUL then 0 else 1 + CLen(s[1..])
  }

  /** The C string stored at the start of `s`. */
  function CStr(s: seq<char>): seq<char>
  {
    s[..CLen(s)]
  }

  predicate MatchAt(s: seq<char>, pat: seq<char>, i: nat)
  {
    i + |pat| <= |s| && s[i..i + |pat|] == pat
  }

  /** The first index j >= i at which `pat` occurs in `s`. */
  function FindFrom(s: seq<char>, pat: seq<char>, i: nat): (r: Option<nat>)
    requires i <= |s|
    decreases |s| - i
    ensures r.Some? ==> i <= r.value && MatchAt(s, pat, r.value)
    ensures r.Some? ==> forall j :: i <= j < r.value ==> !MatchAt(s, pat, j)
    ensures r.None? ==> forall j :: i <= j ==> !MatchAt(s, pat, j)
  {
    if i + |pat| > |s| then None
    else if s[i..i + |pat|] == pat then Some(i)
    else FindFrom(s, pat, i + 1)
  }

  /** strstr(s, pat): the offset of the first occurrence of `pat` inside the
      C string held in `s`; None stands for the NULL result. */
  function StrStr(s: seq<char>, pat: seq<char>): (r: Option<nat>)
  {
    FindFrom(CStr(s), pat, 0)
  }

  /** FindFrom finds the first occurrence: a match at k with none from i to k. */
  lemma FindFromFirst(s: seq<char>, pat: seq<char>, i: nat, k: nat)
    requires i <= k && MatchAt(s, pat, k)
    requires forall j :: i <= j < k ==> !MatchAt(s, pat, j)
    ensures FindFrom(s, pat, i) == Some(k)
  {
  }

  /** A sequence without NUL bytes is its own C string. */
  lemma CStrNoNul(s: seq<char>)
    requires forall k :: 0 <= k < |s| ==> s[k] != NUL
    ensures CStr(s) == s
  {
  }

  /** strstr(s + i, "\r\n") as a byte-by-byte scan: the index of the first
      "\r\n" at or after i, searching no further than the next NUL. */
  function CrlfFrom(s: seq<char>, i: nat): (r: Option<nat>)
    decreases |s| - i
    ensures r.Some? ==> i <= r.value
  {
    if i >= |s| || s[i] == NUL then None
    else if i + 1 < |s| && s[i] == '\r' && s[i + 1] == '\n' then Some(i)
    else CrlfFrom(s, i + 1)
  }

  /** strstr(s + i, "\n") as a byte-by-byte scan. */
  function LfFrom(s: seq<char>, i: nat): (r: Option<nat>)
    decreases |s| - i
    ensures r.Some? ==> i <= r.value
  {
    if i >= |s| || s[i] == NUL then None
    else if s[i] == '\n' then Some(i)
    else LfFrom(s, i + 1)
  }

  /** The offset `k` of a match inside s[i..], as an index of s. */
  function Shift(r: Option<nat>, i: nat): Option<nat>
  {
    match r
    case Some(k) => Some(i + k)
    case None => None
  }

  /** Searching past a first character that is skipped is searching the rest. */
  lemma {:induction false} FindFromConsShift(c: char, u: seq<char>, pat: seq<char>, j: nat)
    requires j <= |u|
    ensures FindFrom([c] + u, pat, j + 1) == Shift(FindFrom(u, pat, j), 1)
    decreases |u| - j
  {
    var s := [c] + u;
    if j + |pat| <= |u| {
      assert s[j + 1..j + 1 + |pat|] == u[j..j + |pat|];
      if u[j..j + |pat|] != pat {
        FindFromConsShift(c, u, pat, j + 1);
      }
    }
  }

  /** The C string from index i of s, when s[i] is not NUL, is s[i] followed
      by the C string from i + 1. */
  lemma CStrStep(s: seq<char>, i: nat)
    requires i < |s| && s[i] != NUL
    ensures CStr(s[i..]) == [s[i]] + CStr(s[i + 1..])
  {
    assert s[i..][1..] == s[i + 1..];
  }

  /** strstr from a byte that is not NUL searches that byte followed by the
      C string after it. */
  lemma StrStrCons(s: seq<char>, i: nat, pat: seq<char>)
    requires i < |s| && s[i] != NUL
    ensures StrStr(s[i..], pat) == FindFrom([s[i]] + CStr(s[i + 1..]), pat, 0)
  {
    CStrStep(s, i);
  }

  /** A search whose first position does not match goes on in the rest. */
  lemma FindFromSkip(c: char, t: seq<char>, pat: seq<char>)
    requires !MatchAt([c] + t, pat, 0)
    ensures FindFrom([c] + t, pat, 0) == Shift(FindFrom(t, pat, 0), 1)
  {
    FindFromConsShift(c, t, pat, 0);
  }

  /** strstr at a NUL byte or at the end finds nothing. */
  lemma StrStrEmpty(s: seq<char>, i: nat, pat: seq<char>)
    requires i <= |s| && (i == |s| || s[i] == NUL) && |pat| > 0
    ensures StrStr(s[i..], pat) == None
  {
    assert CLen(s[i..]) == 0;
  }

  /** The byte scan for "\r\n" finds what strstr finds. */
  lemma {:induction false} CrlfFromIsStrStr(s: seq<char>, i: nat)
    requires i <= |s|
    ensures CrlfFrom(s, i) == Shift(StrStr(s[i..], "\r\n"), i)
    decreases |s| - i
  {
    if i < |s| && s[i] != NUL {
      var t := CStr(s[i + 1..]);
      if i + 1 < |s| && s[i] == '\r' && s[i + 1] == '\n' {
        assert StrStr(s[i..], "\r\n") == Some(0) by {
          StrStrCons(s, i, "\r\n");
          CStrStep(s, i + 1);
          assert ([s[i]] + t)[0..2] == "\r\n";
        }
      } else {
        assert StrStr(s[i..], "\r\n") == Shift(StrStr(s[i + 1..], "\r\n"), 1) by {
          StrStrCons(s, i, "\r\n");
          assert !MatchAt([s[i]] + t, "\r\n", 0) by {
            var u := [s[i]] + t;
            if |u| >= 2 {
              assert i + 1 < |s| && s[i + 1..][0] != NUL;
              CStrStep(s, i + 1);
              assert u[0..2][0] == s[i] && u[0..2][1] == s[i + 1];
            }
          }
          FindFromSkip(s[i], t, "\r\n");
        }
        CrlfFromIsStrStr(s, i + 1);
      }
    } else {
      StrStrEmpty(s, i, "\r\n");
    }
  }

  /** The byte scan for "\n" finds what strstr finds. */
  lemma {:induction false} LfFromIsStrStr(s: seq<char>, i: nat)
    requires i <= |s|
    ensures LfFrom(s, i) == Shift(StrStr(s[i..], "\n"), i)
    decreases |s| - i
  {
    if i < |s| && s[i] != NUL {
      var t := CStr(s[i + 1..]);
      if s[i] != '\n' {
        assert StrStr(s[i..], "\n") == Shift(StrStr(s[i + 1..], "\n"), 1) by {
          StrStrCons(s, i, "\n");
          assert !MatchAt([s[i]] + t, "\n", 0);
          FindFromSkip(s[i], t, "\n");
        }
        LfFromIsStrStr(s, i + 1);
      } else {
        assert StrStr(s[i..], "\n") == Some(0) by {
          StrStrCons(s, i, "\n");
          assert ([s[i]] + t)[0..1] == "\n";
        }
      }
    } else {
      StrStrEmpty(s, i, "\n");
    }
  }

  /** tolower in the "C" locale. */
  function ToLower(c: char): char
  {
    if 'A' <= c <= 'Z' then (c as int + 32) as char else c
  }

  /** strncasecmp(s, pat, |pat|) == 0 for a pattern without NUL bytes, where
      `s` is followed by a NUL (a shorter `s` never matches). */
  predicate StrNCaseEq(s: seq<char>, pat: seq<char>)
  {
    |pat| <= |s| && forall i :: 0 <= i < |pat| ==> ToLower(s[i]) == ToLower(pat[i])
  }

  /** isspace in the "C" locale. */
  predicate IsSpace(c: char)
  {
    c == ' ' || c == '\t' || c == '\n' || c == 11 as char || c == 12 as char || c == '\r'
  }

  predicate IsWordChar(c: char)
  {
    !IsSpace(c)
  }

  /** The two characters the header parser skips after a header name. */
  predicate IsBlank(c: char)
  {
    c == ' ' || c == '\t'
  }

  predicate IsDigit(c: char)
  {
    '0' <= c <= '9'
  }

  /** The end of the longest run of characters satisfying `p` that starts at `i`. */
  function Span(s: seq<char>, i: nat, p: char -> bool): (j: nat)
    requires i <= |s|
    decreases |s| - i
    ensures i <= j <= |s|
    ensures forall k :: i <= k < j ==> p(s[k])
    ensures j < |s| ==> !p(s[j])
  {
    if i == |s| || !p(s[i]) then i else Span(s, i + 1, p)
  }

  /** The value of a sequence of decimal digits, most significant first. */
  function DecValue(ds: seq<char>): nat
  {
    if ds == [] then 0
    else
      var d := ds[|ds| - 1] as int - '0' as int;
      DecValue(ds[..|ds| - 1]) * 10 + (if 0 <= d then d else 0)
  }

  /** atoi: optional white space, an optional sign, then decimal digits up to
      the first non-digit; 0 when there are no digits. */
  function Atoi(s: seq<char>): int
  {
    var i := Span(s, 0, IsSpace);
    var signed := i < |s| && (s[i] == '-' || s[i] == '+');
    var j := if signed then i + 1 else i;
    var v: int := DecValue(s[j..Span(s, j, IsDigit)]);
    if signed && s[i] == '-' then -v else v
  }

  /** The canonical decimal text of a natural number. */
  function Decimal(n: nat): (r: seq<char>)
    ensures |r| > 0 && forall k :: 0 <= k < |r| ==> IsDigit(r[k])
  {
    var d := ['0' + (n % 10) as char];
    if n < 10 then d else Decimal(n / 10) + d
  }

  /** strncpy(dst, s, width) followed by dst[width] = NUL: the C string at the
      start of `s`, cut to at most `width` characters. */
  function StrNCopy(s: seq<char>, width: nat): (r: seq<char>)
  {
    var t := CStr(s);
    if |t| <= width then t else t[..width]
  }

  /** sscanf's "%<width>s" conversion at index i of the C string s: skip white
      space, then take at most `width` non-space characters. None when no
      character is taken (the conversion fails); otherwise the word and the
      index just past it. */
  function ScanWord(s: seq<char>, i: nat, width: nat): (r: Option<(seq<char>, nat)>)
    requires i <= |s|
    ensures r.Some? ==> 0 < |r.value.0| <= width && r.value.1 <= |s|
    ensures r.Some? ==> forall k :: 0 <= k < |r.value.0| ==> !IsSpace(r.value.0[k])
  {
    var a := Span(s, i, IsSpace);
    var b := Span(s, a, IsWordChar);
    var e := if b - a > width then a + width else b;
    if e == a then None else Some((s[a..e], e))
  }

  /** The longest method and path the request line scan keeps: the method
      and path arrays hold 15 and 255 characters before their NUL. */
  const METHOD_WIDTH: nat := 15
  const PATH_WIDTH: nat := 255

  /** The scan of the request line into a method and a path: two
      white-space-separated words of the C string, cut to METHOD_WIDTH and
      PATH_WIDTH characters, when both are present. */
  function ScanRequestLine(buf: seq<char>): (r: Option<(seq<char>, seq<char>)>)
    ensures r.Some? ==> 0 < |r.value.0| <= METHOD_WIDTH && 0 < |r.value.1| <= PATH_WIDTH
  {
    var s := CStr(buf);
    match ScanWord(s, 0, METHOD_WIDTH)
    case None => None
    case Some((m, e)) =>
      match ScanWord(s, e, PATH_WIDTH)
      case None => None
      case Some((p, _)) => Some((m, p))
  }

  /** The "%<width>s" conversion from `i` when white space runs up to `a` and
      a word runs from `a` to `b`, ended by white space or the end of the C
      string: the word is taken, cut to `width` characters. */
  lemma ScanWordAt(s: seq<char>, i: nat, a: nat, b: nat, width: nat)
    requires i <= a < b <= |s| && width > 0
    requires forall k :: i <= k < a ==> IsSpace(s[k])
    requires forall k :: a <= k < b ==> !IsSpace(s[k])
    requires b == |s| || IsSpace(s[b])
    ensures var e := if b - a > width then a + width else b;
      ScanWord(s, i, width) == Some((s[a..e], e))
  {
    SpanIs(s, i, IsSpace, a);
    SpanIs(s, a, IsWordChar, b);
  }

  /** A prefix without NUL bytes belongs to the C string of any sequence it starts. */
  lemma {:induction false} CStrAfterText(u: seq<char>, t: seq<char>)
    requires forall k :: 0 <= k < |u| ==> u[k] != NUL
    ensures CStr(u + t) == u + CStr(t)
  {
    if u == [] {
      assert u + t == t;
    } else {
      CStrAfterText(u[1..], t);
      assert (u + t)[1..] == u[1..] + t;
      CStrStep(u + t, 0);
      assert (u + t)[0..] == u + t;
    }
  }

  /** sscanf("%15s %255s") on a C string made of white space up to `a`, a
      word up to `b`, white space up to `c` and a word up to `d`, ended by
      white space or the end of the C string: the two words, the first cut
      to 15 characters and the second to 255. When the first word is longer
      than 15 characters, its 16th character starts the path (c == a + 15). */
  lemma ScanRequestLineAt(buf: seq<char>, a: nat, b: nat, c: nat, d: nat)
    requires var s := CStr(buf);
      a < b <= |s| && c < d <= |s| &&
      (forall k :: 0 <= k < a ==> IsSpace(s[k])) &&
      (forall k :: a <= k < b ==> !IsSpace(s[k])) &&
      (forall k :: b <= k < c ==> IsSpace(s[k])) &&
      (forall k :: c <= k < d ==> !IsSpace(s[k])) &&
      (d == |s| || IsSpace(s[d]))
    requires (b - a <= 15 && b < c) || (b - a > 15 && c == a + 15 && b == d)
    ensures var s := CStr(buf);
      var e := if d - c > 255 then c + 255 else d;
      ScanRequestLine(buf) == Some((s[a..if b - a > 15 then a + 15 else b], s[c..e]))
  {
    var s := CStr(buf);
    if b - a <= 15 {
      ScanWordAt(s, 0, a, b, 15);
      ScanWordAt(s, b, c, d, 255);
    } else {
      ScanWordAt(s, 0, a, b, 15);
      ScanWordAt(s, c, c, d, 255);
    }
  }

  /** sscanf("%15s %255s") takes the first two words of the request line:
      after leading white space, a method of 1 to 15 characters, white
      space, and a path of 1 to 255 characters ended by white space or NUL. */
  lemma ScanRequestLineTokens(ws: seq<char>, m: seq<char>, ws2: seq<char>, p: seq<char>, tail: seq<char>)
    requires forall k :: 0 <= k < |ws| ==> IsSpace(ws[k])
    requires 0 < |m| <= 15 && forall k :: 0 <= k < |m| ==> !IsSpace(m[k]) && m[k] != NUL
    requires |ws2| > 0 && forall k :: 0 <= k < |ws2| ==> IsSpace(ws2[k])
    requires 0 < |p| <= 255 && forall k :: 0 <= k < |p| ==> !IsSpace(p[k]) && p[k] != NUL
    requires tail == [] || IsSpace(tail[0]) || tail[0] == NUL
    ensures ScanRequestLine(ws + m + ws2 + p + tail) == Some((m, p))
  {
    var u := ws + m + ws2 + p;
    var buf := ws + m + ws2 + p + tail;
    assert buf == u + tail;
    CStrAfterText(u, tail);
    var s := CStr(buf);
    var a, b := |ws|, |ws| + |m|;
    var c := b + |ws2|;
    var d := c + |p|;
    assert s[..d] == u;
    assert d < |s| ==> s[d] == tail[0] && IsSpace(s[d]);
    assert s[a..b] == m && s[c..d] == p && s[..a] == ws && s[b..c] == ws2;
    ScanRequestLineAt(buf, a, b, c, d);
  }

  /** A first word longer than 15 characters is split: the method is its
      first 15 characters and the path starts with its 16th. */
  lemma ScanRequestLineSplit(ws: seq<char>, w: seq<char>, tail: seq<char>)
    requires forall k :: 0 <= k < |ws| ==> IsSpace(ws[k])
    requires |w| > 15 && forall k :: 0 <= k < |w| ==> !IsSpace(w[k]) && w[k] != NUL
    requires tail == [] || IsSpace(tail[0]) || tail[0] == NUL
    ensures ScanRequestLine(ws + w + tail) ==
      Some((w[..15], if |w| - 15 <= 255 then w[15..] else w[15..15 + 255]))
  {
    var buf := ws + w + tail;
    var s := CStr(buf);
    var a, b := |ws|, |ws| + |w|;
    assert s[..b] == ws + w by {
      CStrAfterText(ws + w, tail);
    }
    assert b == |s| || IsSpace(s[b]) by {
      CStrAfterText(ws + w, tail);
      if b < |s| { assert s[b] == tail[0]; }
    }
    assert s[a..b] == w;
    assert forall k :: 0 <= k < a ==> IsSpace(s[k]) by {
      forall k | 0 <= k < a ensures IsSpace(s[k]) { assert s[k] == (ws + w)[k]; }
    }
    assert forall k :: a <= k < b ==> !IsSpace(s[k]) by {
      forall k | a <= k < b ensures !IsSpace(s[k]) { assert s[k] == w[k - a]; }
    }
    ScanRequestLineAt(buf, a, b, a + 15, b);
    WordSlices(s, w, a, b);
  }

  lemma WordSlices(s: seq<char>, w: seq<char>, a: nat, b: nat)
    requires a <= b <= |s| && s[a..b] == w && |w| > 15
    ensures s[a..a + 15] == w[..15]
    ensures var e := if b - (a + 15) > 255 then a + 15 + 255 else b;
      s[a + 15..e] == if |w| - 15 <= 255 then w[15..] else w[15..15 + 255]
  {
    assert s[a..a + 15] == w[..15];
    assert s[a + 15..b] == w[15..];
    if |w| - 15 > 255 {
      var x, y := w[15..15 + 255], s[a + 15..a + 15 + 255];
      forall k | 0 <= k < |x|
        ensures x[k] == y[k]
      {
        assert w[15 + k] == s[a + 15 + k];
      }
      assert x == y;
    }
  }

  /** The C string of `p` is the start of the C string of `p + q`. */
  lemma CStrGrows(p: seq<char>, q: seq<char>)
    ensures CStr(p) <= CStr(p + q)
  {
    var n, n' := CLen(p), CLen(p + q);
    assert forall i :: 0 <= i < n ==> (p + q)[i] == p[i];
    assert n <= n';
  }

  /** strstr finds a pattern it found in a buffer after more bytes arrive. */
  lemma StrStrGrows(p: seq<char>, q: seq<char>, pat: seq<char>)
    ensures StrStr(p, pat).Some? ==> StrStr(p + q, pat).Some?
  {
    if StrStr(p, pat).Some? {
      var i := StrStr(p, pat).value;
      CStrGrows(p, q);
      assert CStr(p + q)[i..i + |pat|] == CStr(p)[i..i + |pat|];
      assert MatchAt(CStr(p + q), pat, i);
    }
  }

  /** Span is determined by its two boundary properties. */
  lemma SpanIs(s: seq<char>, i: nat, p: char -> bool, m: nat)
    requires i <= m <= |s|
    requires forall k :: i <= k < m ==> p(s[k])
    requires m < |s| ==> !p(s[m])
    ensures Span(s, i, p) == m
  {
  }

  lemma {:induction false} DecValueDecimal(n: nat)
    ensures DecValue(Decimal(n)) == n
  {
    var d := ['0' + (n % 10) as char];
    if n >= 10 {
      DecValueDecimal(n / 10);
      assert (Decimal(n / 10) + d)[..|Decimal(n / 10) + d| - 1] == Decimal(n / 10);
    }
  }

  /** atoi reads back the decimal text of a natural number, after any leading
      white space and up to the first character that is not a digit. */
  lemma AtoiDecimal(ws: seq<char>, n: nat, rest: seq<char>)
    requires forall k :: 0 <= k < |ws| ==> IsSpace(ws[k])
    requires rest == [] || !IsDigit(rest[0])
    ensures Atoi(ws + Decimal(n) + rest) == n
  {
    var s := ws + Decimal(n) + rest;
    var digits := Decimal(n);
    SpanIs(s, 0, IsSpace, |ws|);
    SpanIs(s, |ws|, IsDigit, |ws| + |digits|);
    assert s[|ws|..|ws| + |digits|] == digits;
    DecValueDecimal(n);
  }

  /** A leading minus sign negates the value atoi reads. */
  lemma AtoiNegative(n: nat, rest: seq<char>)
    requires rest == [] || !IsDigit(rest[0])
    ensures Atoi(['-'] + Decimal(n) + rest) == -(n as int)
  {
    var s := ['-'] + Decimal(n) + rest;
    var digits := Decimal(n);
    SpanIs(s, 0, IsSpace, 0);
    SpanIs(s, 1, IsDigit, 1 + |digits|);
    assert s[1..1 + |digits|] == digits;
    DecValueDecimal(n);
  }

  /** strncpy keeps a NUL-free prefix of its source of at most `width` characters. */
  lemma StrNCopyPrefix(s: seq<char>, width: nat)
    ensures |StrNCopy(s, width)| <= width
    ensures StrNCopy(s, width) <= s
    ensures forall k :: 0 <= k < |StrNCopy(s, width)| ==> StrNCopy(s, width)[k] != NUL
    ensures |CStr(s)| <= width ==> StrNCopy(s, width) == CStr(s)
  {
  }

  /** sscanf fills both the method and the path whenever the C string holds two
      non-space characters at least 15 positions apart: the first word takes
      at most 15 characters, so the later one starts or belongs to a second word. */
  lemma {:induction false} RequestLineFilled(buf: seq<char>, c: nat, e: nat)
    requires c + 15 <= e < CLen(buf)
    requires !IsSpace(buf[c]) && !IsSpace(buf[e])
    ensures ScanRequestLine(buf).Some?
  {
    var s := CStr(buf);
    assert s[c] == buf[c] && s[e] == buf[e];
    var a := Span(s, 0, IsSpace);
    assert a <= c;
    var b := Span(s, a, IsWordChar);
    assert b > a;
    var m := ScanWord(s, 0, 15);
    assert m.Some? && m.value.1 <= c + 15;
    var a2 := Span(s, m.value.1, IsSpace);
    assert a2 <= e;
    var b2 := Span(s, a2, IsWordChar);
    assert b2 > a2;
  }
}
