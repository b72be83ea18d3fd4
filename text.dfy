/**
 * The text operations the protocol code leans on, with Python's semantics:
 * `str.split()` (runs of whitespace), `str.split(":")` (every separator, empty
 * parts kept), `int(...)` on a string, `str(...)` of an integer, and the
 * ASCII view of bytes. Protocol text is modelled as ASCII characters.
 */
module Text {
  import opened Wrappers

  /** An octet, as `bytes` objects hold them. */
  type byte = x: int | 0 <= x < 256

  /** Python's whitespace characters (`str.isspace()`), the separators of `str.split()`. */
  predicate IsSpace(c: char) {
    || c == ' ' || c == '\t' || c == '\n' || c == '\r' || c == '\U{000B}' || c == '\U{000C}'
    || ('\U{001C}' <= c <= '\U{001F}') || c == '\U{0085}' || c == '\U{00A0}' || c == '\U{1680}'
    || ('\U{2000}' <= c <= '\U{200A}') || c == '\U{2028}' || c == '\U{2029}' || c == '\U{202F}'
    || c == '\U{205F}' || c == '\U{3000}'
  }

  /**
   * The whitespace `int()` ignores around a number: the same characters except
   * the ASCII separators U+001C to U+001F, which `int()` rejects.
   */
  predicate IsIntSpace(c: char) {
    IsSpace(c) && !('\U{001C}' <= c <= '\U{001F}')
  }

  /** A token as `str.split()` produces it: non-empty and free of whitespace. */
  predicate IsWord(s: string) {
    |s| > 0 && forall i :: 0 <= i < |s| ==> !IsSpace(s[i])
  }

  predicate AllWords(ts: seq<string>) {
    forall i :: 0 <= i < |ts| ==> IsWord(ts[i])
  }

  /** A non-empty run of visible ASCII characters is a word. */
  lemma VisibleIsWord(s: string)
    requires |s| > 0 && forall i :: 0 <= i < |s| ==> '!' <= s[i] <= '~'
    ensures IsWord(s)
  {
  }

  lemma AllWordsPrepend(w: string, ts: seq<string>)
    requires IsWord(w) && AllWords(ts)
    ensures AllWords([w] + ts)
  {
    var all := [w] + ts;
    assert forall i :: 0 < i < |all| ==> all[i] == ts[i - 1];
  }

  /** The longest whitespace-free prefix of `s`. */
  function LeadingWord(s: string): (w: string)
    ensures |w| <= |s| && w == s[..|w|]
    ensures forall i :: 0 <= i < |w| ==> !IsSpace(w[i])
    ensures |w| == |s| || IsSpace(s[|w|])
  {
    if s == [] || IsSpace(s[0]) then []
    else [s[0]] + LeadingWord(s[1..])
  }

  /**
   * Python's `s.split()`: the maximal whitespace-free runs of `s`, in order.
   */
  function Split(s: string): (tokens: seq<string>)
    decreases |s|
  {
    if s == [] then []
    else if IsSpace(s[0]) then Split(s[1..])
    else
      var w := LeadingWord(s);
      [w] + Split(s[|w|..])
  }

  /** `s.split()` returns no tokens exactly when `s` is blank. */
  lemma {:induction false} SplitBlank(s: string)
    ensures Split(s) == [] <==> forall i :: 0 <= i < |s| ==> IsSpace(s[i])
    decreases |s|
  {
    if s != [] && IsSpace(s[0]) {
      SplitBlank(s[1..]);
      assert forall i :: 1 <= i < |s| ==> s[i] == s[1..][i - 1];
    }
  }

  /** Python's `" ".join(tokens)`: the first token leads, followed by a space when more come. */
  function JoinSpace(tokens: seq<string>): (s: string)
    ensures |tokens| > 0 ==> |tokens[0]| <= |s| && s[..|tokens[0]|] == tokens[0]
    ensures |tokens| > 1 ==> |tokens[0]| < |s| && s[|tokens[0]|] == ' '
  {
    if |tokens| == 0 then ""
    else if |tokens| == 1 then tokens[0]
    else tokens[0] + " " + JoinSpace(tokens[1..])
  }

  /** Every token `Split` returns is a word. */
  lemma {:induction false} SplitGivesWords(s: string)
    ensures AllWords(Split(s))
    decreases |s|
  {
    if s == [] {
    } else if IsSpace(s[0]) {
      SplitGivesWords(s[1..]);
    } else {
      var w := LeadingWord(s);
      SplitGivesWords(s[|w|..]);
    }
  }

  lemma LeadingWordOfWordThenSpace(w: string, rest: string)
    requires IsWord(w)
    ensures LeadingWord(w + " " + rest) == w
    decreases |w|
  {
    if |w| > 1 {
      assert (w + " " + rest)[1..] == w[1..] + " " + rest;
      LeadingWordOfWordThenSpace(w[1..], rest);
    } else {
      assert (w + " " + rest)[1..] == " " + rest;
    }
  }

  lemma LeadingWordOfWord(w: string)
    requires IsWord(w)
    ensures LeadingWord(w) == w
    decreases |w|
  {
    if |w| > 1 {
      LeadingWordOfWord(w[1..]);
    }
  }

  /** Splitting a space-joined list of words gives the words back. */
  lemma {:induction false} SplitJoin(tokens: seq<string>)
    requires AllWords(tokens)
    ensures Split(JoinSpace(tokens)) == tokens
    decreases |tokens|
  {
    if |tokens| == 0 {
    } else if |tokens| == 1 {
      var w := tokens[0];
      LeadingWordOfWord(w);
      assert w[|w|..] == [];
    } else {
      var w, rest := tokens[0], JoinSpace(tokens[1..]);
      var s := w + " " + rest;
      LeadingWordOfWordThenSpace(w, rest);
      assert s[|w|..] == " " + rest;
      assert (" " + rest)[1..] == rest;
      SplitJoin(tokens[1..]);
    }
  }

  /** Python's `s.split(sep)` for a one-character separator: empty parts are kept, so there is always one. */
  function SplitOn(s: string, sep: char): (parts: seq<string>)
    ensures |parts| >= 1
    decreases |s|
  {
    if s == [] then [""]
    else
      var rest := SplitOn(s[1..], sep);
      if s[0] == sep then [""] + rest
      else [[s[0]] + rest[0]] + rest[1..]
  }

  /** There is one part more than there are separators. */
  lemma {:induction false} SplitOnCount(s: string, sep: char)
    ensures |SplitOn(s, sep)| == multiset(s)[sep] + 1
    decreases |s|
  {
    if s != [] {
      assert s == [s[0]] + s[1..];
      SplitOnCount(s[1..], sep);
    }
  }

  lemma {:induction false} SplitOnAbsent(s: string, sep: char)
    requires sep !in s
    ensures SplitOn(s, sep) == [s]
    decreases |s|
  {
    if s != [] {
      SplitOnAbsent(s[1..], sep);
      assert [s[0]] + s[1..] == s;
    }
  }

  /** `(a + sep + b).split(sep) == [a, b]` when neither part holds the separator. */
  lemma {:induction false} SplitOnPair(a: string, b: string, sep: char)
    requires sep !in a && sep !in b
    ensures SplitOn(a + [sep] + b, sep) == [a, b]
    decreases |a|
  {
    var s := a + [sep] + b;
    if a == [] {
      assert s[0] == sep && s[1..] == b;
      SplitOnAbsent(b, sep);
    } else {
      assert s[0] == a[0] != sep;
      assert s[1..] == a[1..] + [sep] + b;
      var rest := SplitOn(s[1..], sep);
      assert rest == [a[1..], b] by { SplitOnPair(a[1..], b, sep); }
      assert SplitOn(s, sep) == [[a[0]] + rest[0]] + rest[1..];
      assert rest[1..] == [b];
      assert [a[0]] + a[1..] == a;
    }
  }

  // ---- decimal numbers ----

  predicate IsDigit(c: char) { '0' <= c <= '9' }

  function DigitChar(d: nat): (c: char)
    requires d < 10
    ensures IsDigit(c)
  {
    (('0' as int) + d) as char
  }

  function DigitValue(c: char): (d: nat)
    requires IsDigit(c)
    ensures d < 10
  {
    (c as int) - ('0' as int)
  }

  /** Python's `str(n)` for a natural number. */
  function NatToString(n: nat): (s: string)
    ensures |s| > 0 && forall i :: 0 <= i < |s| ==> IsDigit(s[i])
    decreases n
  {
    if n < 10 then [DigitChar(n)] else NatToString(n / 10) + [DigitChar(n % 10)]
  }

  /** Python's `str(i)` for any integer. */
  function IntToString(i: int): (s: string)
    ensures |s| > 0 && !IsSpace(s[0]) && !IsSpace(s[|s| - 1])
  {
    if i < 0 then "-" + NatToString(-i) else NatToString(i)
  }

  /** The value of a string of decimal digits, underscores skipped. */
  function DigitsValue(s: string): nat
    requires forall i :: 0 <= i < |s| ==> IsDigit(s[i]) || s[i] == '_'
  {
    if s == [] then 0
    else if s[|s| - 1] == '_' then DigitsValue(s[..|s| - 1])
    else DigitsValue(s[..|s| - 1]) * 10 + DigitValue(s[|s| - 1])
  }

  /**
   * A numeral as Python's `int()` accepts it after the sign: digits, with single
   * underscores allowed between two digits.
   */
  predicate IsNumeral(s: string) {
    && |s| > 0 && IsDigit(s[0]) && IsDigit(s[|s| - 1])
    && (forall i :: 0 <= i < |s| ==> IsDigit(s[i]) || s[i] == '_')
    && (forall i, j :: 0 <= i < |s| && 0 <= j < |s| && j == i + 1 ==> !(s[i] == '_' && s[j] == '_'))
  }

  function TrimLeft(s: string): (t: string)
    ensures |t| <= |s| && t == s[|s| - |t|..] && (t == [] || !IsIntSpace(t[0]))
    decreases |s|
  {
    if |s| > 0 && IsIntSpace(s[0]) then TrimLeft(s[1..]) else s
  }

  function TrimRight(s: string): (t: string)
    ensures |t| <= |s| && t == s[..|t|] && (t == [] || !IsIntSpace(t[|t| - 1]))
    decreases |s|
  {
    if |s| > 0 && IsIntSpace(s[|s| - 1]) then TrimRight(s[..|s| - 1]) else s
  }

  /** `TrimLeft` drops only `int()` whitespace. */
  lemma {:induction false} TrimLeftDropsIntSpace(s: string)
    ensures forall i :: 0 <= i < |s| - |TrimLeft(s)| ==> IsIntSpace(s[i])
    decreases |s|
  {
    if |s| > 0 && IsIntSpace(s[0]) {
      TrimLeftDropsIntSpace(s[1..]);
      assert forall i :: 1 <= i < |s| ==> s[i] == s[1..][i - 1];
    }
  }

  /** `TrimRight` drops only `int()` whitespace, so the separators U+001C to U+001F stay. */
  lemma {:induction false} TrimRightDropsIntSpace(s: string)
    ensures forall i :: |TrimRight(s)| <= i < |s| ==> IsIntSpace(s[i])
    decreases |s|
  {
    if |s| > 0 && IsIntSpace(s[|s| - 1]) {
      TrimRightDropsIntSpace(s[..|s| - 1]);
    }
  }

  /**
   * Python's `int(s)` on a string: surrounding `int()` whitespace is ignored, an
   * optional sign, then a numeral; anything else raises, modelled as None.
   */
  function ParseInt(s: string): (r: Option<int>)
  {
    var t := TrimRight(TrimLeft(s));
    if |t| > 0 && (t[0] == '-' || t[0] == '+') then
      if IsNumeral(t[1..]) then
        var v: int := DigitsValue(t[1..]);
        Some(if t[0] == '-' then -v else v)
      else None
    else if IsNumeral(t) then Some(DigitsValue(t))
    else None
  }

  /** Text `int()` accepts holds a digit, and a negative value needs a minus sign. */
  lemma ParseIntNeedsDigit(s: string)
    ensures ParseInt(s).Some? ==> exists i :: 0 <= i < |s| && IsDigit(s[i])
    ensures ParseInt(s).Some? && ParseInt(s).value < 0 ==> '-' in s
  {
    var u := TrimLeft(s);
    var t := TrimRight(u);
    var start := |s| - |u|;
    if ParseInt(s).Some? {
      assert |t| > 0;
      assert t[|t| - 1] == u[|t| - 1] == s[start + |t| - 1];
      assert IsDigit(t[|t| - 1]);
      if ParseInt(s).value < 0 {
        assert t[0] == u[0] == s[start];
      }
    }
  }

  lemma {:induction false} DigitsValueOfNatToString(n: nat)
    ensures DigitsValue(NatToString(n)) == n
    decreases n
  {
    var s := NatToString(n);
    if n >= 10 {
      assert s[..|s| - 1] == NatToString(n / 10);
      DigitsValueOfNatToString(n / 10);
    }
  }

  lemma NatToStringIsNumeral(n: nat)
    ensures IsNumeral(NatToString(n))
  {
  }

  /** `int(str(i)) == i` for every integer, negative ones included. */
  lemma IntRoundTrip(i: int)
    ensures ParseInt(IntToString(i)) == Some(i)
  {
    var s := IntToString(i);
    assert TrimRight(TrimLeft(s)) == s;
    if i < 0 {
      assert s[1..] == NatToString(-i);
      DigitsValueOfNatToString(-i);
    } else {
      DigitsValueOfNatToString(i);
    }
  }

  /** A string of `k` spaces, as Python's `b' ' * k` (empty when `k` is not positive). */
  function Spaces(k: int): (s: string)
    ensures |s| == if k > 0 then k else 0
    ensures forall i :: 0 <= i < |s| ==> s[i] == ' '
    decreases k
  {
    if k <= 0 then "" else " " + Spaces(k - 1)
  }

  lemma {:induction false} TrimRightSpaces(s: string, k: int)
    requires s == [] || !IsIntSpace(s[|s| - 1])
    ensures TrimRight(s + Spaces(k)) == s
    decreases k
  {
    if k > 0 {
      var shorter := s + Spaces(k - 1);
      assert s + Spaces(k) == shorter + " " by {
        SpacesSnoc(k);
        AppendAssoc(s, Spaces(k - 1), " ");
      }
      assert TrimRight(shorter + " ") == TrimRight(shorter) by {
        assert (shorter + " ")[..|shorter|] == shorter;
      }
      TrimRightSpaces(s, k - 1);
    } else {
      assert s + Spaces(k) == s;
    }
  }

  lemma SpacesSnoc(k: int)
    requires k > 0
    ensures Spaces(k) == Spaces(k - 1) + " "
  {
  }

  lemma ParseIntOfNumeral(s: string)
    requires IsNumeral(TrimRight(TrimLeft(s)))
    ensures ParseInt(s) == Some(DigitsValue(TrimRight(TrimLeft(s))) as int)
  {
    var t := TrimRight(TrimLeft(s));
    assert IsDigit(t[0]) && t[0] != '-' && t[0] != '+';
  }

  /** `int(str(n) + " " * k) == n`: the padded length field parses back. */
  lemma PaddedNatRoundTrip(n: nat, k: int)
    ensures ParseInt(NatToString(n) + Spaces(k)) == Some(n)
  {
    var d := NatToString(n);
    var s := d + Spaces(k);
    assert !IsSpace(s[0]);
    assert TrimLeft(s) == s;
    TrimRightSpaces(d, k);
    assert TrimRight(TrimLeft(s)) == d;
    ParseIntOfNumeral(s);
    DigitsValueOfNatToString(n);
  }

  /**
   * The separator U+001C splits text but is not ignored by `int()`: a count or
   * length field ending in it raises.
   */
  lemma SeparatorIsNotIntSpace()
    ensures Split("5\U{001C}") == ["5"]
    ensures ParseInt("5\U{001C}") == None
  {
    var s := "5\U{001C}";
    assert Split(s) == ["5"] by {
      assert LeadingWord(s) == "5";
      assert Split(s[1..]) == [];
    }
    assert ParseInt(s) == None by {
      assert s == "5" + ['\U{001C}'];
      SeparatorEndsNoInt("5", '\U{001C}');
    }
  }

  /** Ordinary `int()` whitespace in front of a field, by contrast, changes nothing. */
  lemma IntSpaceIgnoredInFront(c: char, s: string)
    requires IsIntSpace(c)
    ensures ParseInt([c] + s) == ParseInt(s)
  {
    assert TrimLeft([c] + s) == TrimLeft(s) by {
      assert ([c] + s)[1..] == s;
    }
  }

  /** Whatever precedes it, text ending in one of the separators U+001C to U+001F makes `int()` raise. */
  lemma SeparatorEndsNoInt(s: string, c: char)
    requires '\U{001C}' <= c <= '\U{001F}'
    ensures ParseInt(s + [c]) == None
  {
    var u := s + [c];
    var l := TrimLeft(u);
    assert l != [] && l[|l| - 1] == c by {
      TrimLeftDropsIntSpace(u);
      assert !IsIntSpace(u[|u| - 1]);
    }
    assert TrimRight(l) == l;
  }

  // ---- bytes and ASCII text ----

  predicate IsAscii(s: string) {
    forall i :: 0 <= i < |s| ==> s[i] as int < 128
  }

  /** `s.encode()` for ASCII text: one byte per character. */
  function AsciiBytes(s: string): (b: seq<byte>)
    requires IsAscii(s)
    ensures |b| == |s|
  {
    seq(|s|, i requires 0 <= i < |s| => s[i] as int as byte)
  }

  /**
   * `b.decode()` restricted to ASCII: a byte at or above 128 is treated as a
   * decoding failure (None).
   */
  function AsciiText(b: seq<byte>): (s: Option<string>)
    decreases |b|
  {
    if b == [] then Some([])
    else if b[|b| - 1] >= 128 then None
    else match AsciiText(b[..|b| - 1])
      case None => None
      case Some(t) => Some(t + [b[|b| - 1] as char])
  }

  lemma {:induction false} AsciiRoundTrip(s: string)
    requires IsAscii(s)
    ensures AsciiText(AsciiBytes(s)) == Some(s)
    decreases |s|
  {
    if s != [] {
      var k := |s| - 1;
      assert AsciiBytes(s)[..k] == AsciiBytes(s[..k]);
      AsciiRoundTrip(s[..k]);
      assert s == s[..k] + [s[k]];
    }
  }

  /** Decoding succeeds exactly on bytes below 128, and then yields one character per byte. */
  lemma {:induction false} AsciiTextExactly(b: seq<byte>)
    ensures AsciiText(b).Some? <==> forall i :: 0 <= i < |b| ==> b[i] < 128
    ensures AsciiText(b).Some? ==>
      |AsciiText(b).value| == |b| && forall i :: 0 <= i < |b| ==> AsciiText(b).value[i] as int == b[i]
    decreases |b|
  {
    if b != [] {
      var k := |b| - 1;
      AsciiTextExactly(b[..k]);
      if b[k] < 128 && AsciiText(b[..k]).Some? {
        var t := AsciiText(b[..k]).value;
        assert AsciiText(b).value == t + [b[k] as char];
      } else if b[k] < 128 {
        var i :| 0 <= i < k && b[..k][i] >= 128;
        assert b[i] >= 128;
      }
    }
  }

  /** The first `n` characters of `s`, or all of it: what a receive into an `n`-byte buffer keeps. */
  function Take<T>(s: seq<T>, n: nat): (t: seq<T>)
    ensures |t| == (if |s| < n then |s| else n) && t == s[..|t|]
  {
    if |s| <= n then s else s[..n]
  }

  /** Concatenation regrouped, stated once so that proofs need not unfold the operands. */
  lemma AppendAssoc<X>(xs: seq<X>, ys: seq<X>, zs: seq<X>)
    ensures xs + (ys + zs) == (xs + ys) + zs
  {
  }

  /** Concatenation of a list of byte strings, as writing them one after another produces. */
  function Flatten(parts: seq<seq<byte>>): seq<byte> {
    if parts == [] then [] else Flatten(parts[..|parts| - 1]) + parts[|parts| - 1]
  }
}
