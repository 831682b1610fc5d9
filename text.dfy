/** Python's string primitives that the record store relies on: whitespace as
    str.isspace sees it, str.strip(), str.split() with no separator, and the
    decimal rendering of an int inside an f-string. */
module Text {

  /** The characters Python's str.isspace() (and so split() and strip()) treat as whitespace. */
  predicate IsSpace(c: char) {
    || c == ' '
    || ('\t' <= c <= '\r')
    || ('\U{1c}' <= c <= '\U{1f}')
    || c == '\U{85}' || c == '\U{a0}' || c == '\U{1680}'
    || ('\U{2000}' <= c <= '\U{200a}')
    || c == '\U{2028}' || c == '\U{2029}' || c == '\U{202f}' || c == '\U{205f}'
    || c == '\U{3000}'
  }

  predicate AllSpace(s: string) {
    forall i :: 0 <= i < |s| ==> IsSpace(s[i])
  }

  /** A token of str.split(): non-empty and free of whitespace. */
  predicate IsWord(w: string) {
    w != [] && forall i :: 0 <= i < |w| ==> !IsSpace(w[i])
  }

  /** str.lstrip(): s without its leading whitespace. */
  function TrimStart(s: string): (r: string)
    ensures |r| <= |s|
    ensures r != [] ==> !IsSpace(r[0])
  {
    if s != [] && IsSpace(s[0]) then TrimStart(s[1..]) else s
  }

  /** str.rstrip(): s without its trailing whitespace. */
  function TrimEnd(s: string): (r: string)
    ensures |r| <= |s|
    ensures r != [] ==> !IsSpace(r[|r| - 1])
  {
    if s != [] && IsSpace(s[|s| - 1]) then TrimEnd(s[..|s| - 1]) else s
  }

  /** str.strip(): s without its leading and its trailing whitespace. */
  function Strip(s: string): (r: string)
    ensures |r| <= |s|
    ensures r != [] ==> !IsSpace(r[0]) && !IsSpace(r[|r| - 1])
  {
    var t := TrimStart(s);
    TrimEndIsPrefix(t);
    TrimEnd(t)
  }

  /** What TrimStart removes is a whitespace prefix. */
  lemma {:induction false} TrimStartIsSuffix(s: string)
    ensures s == s[..|s| - |TrimStart(s)|] + TrimStart(s)
    ensures AllSpace(s[..|s| - |TrimStart(s)|])
  {
    if s != [] && IsSpace(s[0]) {
      TrimStartIsSuffix(s[1..]);
      var t := TrimStart(s);
      assert s[..|s| - |t|] == [s[0]] + s[1..][..|s| - 1 - |t|];
    }
  }

  /** What TrimEnd removes is a whitespace suffix. */
  lemma {:induction false} TrimEndIsPrefix(s: string)
    ensures s == TrimEnd(s) + s[|TrimEnd(s)|..]
    ensures AllSpace(s[|TrimEnd(s)|..])
  {
    if s != [] && IsSpace(s[|s| - 1]) {
      var p := s[..|s| - 1];
      TrimEndIsPrefix(p);
      var r := TrimEnd(s);
      assert s[|r|..] == p[|r|..] + [s[|s| - 1]];
    }
  }

  /** Strip keeps the slice between a whitespace prefix and a whitespace suffix. */
  lemma StripIsSlice(s: string)
    ensures exists i :: 0 <= i <= |s| - |Strip(s)| && s == s[..i] + Strip(s) + s[i + |Strip(s)|..] &&
                        AllSpace(s[..i]) && AllSpace(s[i + |Strip(s)|..])
  {
    var t := TrimStart(s);
    var r := Strip(s);
    TrimStartIsSuffix(s);
    TrimEndIsPrefix(t);
    var i := |s| - |t|;
    assert s[i..] == t;
    assert s[i + |r|..] == t[|r|..];
    assert s == s[..i] + r + s[i + |r|..];
  }

  /** A string with no surrounding whitespace is left as it is by strip(). */
  lemma StripTrimmed(s: string)
    requires s != [] ==> !IsSpace(s[0]) && !IsSpace(s[|s| - 1])
    ensures Strip(s) == s
  {
  }

  /** Length of the run of non-whitespace characters that starts s. */
  function WordLength(s: string): (n: nat)
    ensures n <= |s|
    ensures forall i :: 0 <= i < n ==> !IsSpace(s[i])
    ensures n < |s| ==> IsSpace(s[n])
  {
    if s == [] || IsSpace(s[0]) then 0 else 1 + WordLength(s[1..])
  }

  /** str.split() with no separator: the maximal whitespace-free runs of s, in order. */
  function Words(s: string): (ws: seq<string>)
    ensures |ws| <= |s|
    ensures forall k :: 0 <= k < |ws| ==> ws[k] != []
    decreases |s|
  {
    var t := TrimStart(s);
    if t == [] then [] else
      var n := WordLength(t);
      [t[..n]] + Words(t[n..])
  }

  /** Every token split() yields is non-empty and free of whitespace. */
  lemma {:induction false} WordsAreWords(s: string)
    ensures forall k :: 0 <= k < |Words(s)| ==> IsWord(Words(s)[k])
    decreases |s|
  {
    var t := TrimStart(s);
    if t != [] {
      var n := WordLength(t);
      WordsAreWords(t[n..]);
      assert Words(s) == [t[..n]] + Words(t[n..]);
    }
  }

  /** " ".join(ws) */
  function Unwords(ws: seq<string>): string {
    if ws == [] then ""
    else if |ws| == 1 then ws[0]
    else ws[0] + " " + Unwords(ws[1..])
  }

  lemma {:induction false} WordLengthOfWord(w: string, rest: string)
    requires IsWord(w)
    requires rest == [] || IsSpace(rest[0])
    ensures WordLength(w + rest) == |w|
  {
    assert (w + rest)[0] == w[0];
    if |w| == 1 {
      assert (w + rest)[1..] == rest;
    } else {
      assert (w + rest)[1..] == w[1..] + rest;
      WordLengthOfWord(w[1..], rest);
    }
  }

  lemma {:induction false} TrimStartOfSpaces(sp: string, s: string)
    requires AllSpace(sp)
    ensures TrimStart(sp + s) == TrimStart(s)
    decreases |sp|
  {
    if sp == [] {
      assert sp + s == s;
    } else {
      assert (sp + s)[0] == sp[0];
      assert (sp + s)[1..] == sp[1..] + s;
      TrimStartOfSpaces(sp[1..], s);
    }
  }

  /** Leading whitespace adds no token. */
  lemma WordsSkipSpaces(sp: string, s: string)
    requires AllSpace(sp)
    ensures Words(sp + s) == Words(s)
  {
    TrimStartOfSpaces(sp, s);
  }

  /** A word followed by whitespace (or nothing) is the first token. */
  lemma WordsOfWordThen(w: string, rest: string)
    requires IsWord(w)
    requires rest == [] || IsSpace(rest[0])
    ensures Words(w + rest) == [w] + Words(rest)
  {
    var s := w + rest;
    assert s[0] == w[0];
    assert TrimStart(s) == s;
    WordLengthOfWord(w, rest);
    assert s[..|w|] == w;
    assert s[|w|..] == rest;
  }

  /** Splitting the text a space-join produced gives back the tokens. */
  lemma {:induction false} WordsOfUnwords(ws: seq<string>)
    requires forall k :: 0 <= k < |ws| ==> IsWord(ws[k])
    ensures Words(Unwords(ws)) == ws
  {
    if ws == [] {
    } else if |ws| == 1 {
      assert ws[0] + [] == ws[0];
      WordsOfWordThen(ws[0], []);
    } else {
      var rest := Unwords(ws[1..]);
      assert Unwords(ws) == ws[0] + (" " + rest);
      WordsOfWordThen(ws[0], " " + rest);
      WordsSkipSpaces(" ", rest);
      WordsOfUnwords(ws[1..]);
    }
  }

  lemma {:induction false} TrimStartAppendSpaces(s: string, sp: string)
    requires AllSpace(sp)
    ensures TrimStart(s) == [] ==> TrimStart(s + sp) == []
    ensures TrimStart(s) != [] ==> TrimStart(s + sp) == TrimStart(s) + sp
  {
    if s == [] {
      assert s + sp == sp;
      AllSpaceTrims(sp);
    } else {
      assert (s + sp)[0] == s[0];
      assert (s + sp)[1..] == s[1..] + sp;
      if IsSpace(s[0]) {
        TrimStartAppendSpaces(s[1..], sp);
      }
    }
  }

  lemma {:induction false} AllSpaceTrims(sp: string)
    requires AllSpace(sp)
    ensures TrimStart(sp) == []
  {
    if sp != [] {
      AllSpaceTrims(sp[1..]);
    }
  }

  /** Splitting ignores the leading whitespace TrimStart removes. */
  lemma WordsOfTrimStart(s: string)
    ensures Words(TrimStart(s)) == Words(s)
  {
    var t := TrimStart(s);
    TrimStartIsSuffix(s);
    WordsSkipSpaces(s[..|s| - |t|], t);
  }

  /** Trailing whitespace adds no token. */
  lemma {:induction false} WordsAppendSpaces(s: string, sp: string)
    requires AllSpace(sp)
    ensures Words(s + sp) == Words(s)
    decreases |s|
  {
    WordsOfTrimStart(s);
    WordsOfTrimStart(s + sp);
    if TrimStart(s) == [] {
      TrimStartAppendSpaces(s, sp);
    } else {
      var w, u := FirstWord(s, sp);
      WordsAppendSpaces(u, sp);
      WordsAfterWord(w, u, sp);
    }
  }

  /** The first token w of s and the text u after it, seen in s and in s + sp. */
  lemma FirstWord(s: string, sp: string) returns (w: string, u: string)
    requires AllSpace(sp) && TrimStart(s) != []
    ensures IsWord(w) && (u == [] || IsSpace(u[0])) && |u| < |s|
    ensures TrimStart(s) == w + u
    ensures TrimStart(s + sp) == w + (u + sp)
  {
    TrimStartAppendSpaces(s, sp);
    var t := TrimStart(s);
    var n := WordLength(t);
    w, u := t[..n], t[n..];
    assert t == w + u;
    assert (w + u) + sp == w + (u + sp);
  }

  lemma WordsAfterWord(w: string, u: string, sp: string)
    requires IsWord(w) && AllSpace(sp)
    requires u == [] || IsSpace(u[0])
    requires Words(u + sp) == Words(u)
    ensures Words(w + (u + sp)) == Words(w + u)
  {
    assert u + sp == [] || IsSpace((u + sp)[0]) by {
      if u != [] {
        assert (u + sp)[0] == u[0];
      } else {
        assert u + sp == sp;
      }
    }
    WordsOfWordThen(w, u);
    WordsOfWordThen(w, u + sp);
  }

  /** text.strip().split() == text.split(): stripping first changes no token. */
  lemma WordsOfStrip(s: string)
    ensures Words(Strip(s)) == Words(s)
  {
    var t := TrimStart(s);
    var r := TrimEnd(t);
    TrimEndIsPrefix(t);
    WordsAppendSpaces(r, t[|r|..]);
    WordsOfTrimStart(s);
  }

  /** The stripped text is empty exactly when the text has no token. */
  lemma StripEmptyIffNoWords(s: string)
    ensures Strip(s) == [] <==> Words(s) == []
  {
    WordsOfStrip(s);
    var r := Strip(s);
    if r != [] {
      assert TrimStart(r) == r;
    }
  }

  function DigitChar(d: nat): (c: char)
    requires d < 10
    ensures '0' <= c <= '9'
  {
    ['0', '1', '2', '3', '4', '5', '6', '7', '8', '9'][d]
  }

  /** f"{n}" for a non-negative int: its decimal digits, no leading zero. */
  function Decimal(n: nat): (r: string)
    ensures r != [] && forall i :: 0 <= i < |r| ==> '0' <= r[i] <= '9'
    ensures |r| > 1 ==> r[0] != '0'
  {
    if n < 10 then [DigitChar(n)] else Decimal(n / 10) + [DigitChar(n % 10)]
  }

  /** int(s) for a string of decimal digits. */
  function ParseDecimal(s: string): nat
    requires forall i :: 0 <= i < |s| ==> '0' <= s[i] <= '9'
  {
    if s == [] then 0 else ParseDecimal(s[..|s| - 1]) * 10 + ((s[|s| - 1] as int) - ('0' as int))
  }

  /** int(f"{n}") == n */
  lemma {:induction false} ParseDecimalOfDecimal(n: nat)
    ensures ParseDecimal(Decimal(n)) == n
  {
    if n >= 10 {
      var s := Decimal(n);
      assert s[..|s| - 1] == Decimal(n / 10);
      ParseDecimalOfDecimal(n / 10);
    }
  }

  /** Different numbers render differently, so numbered names never collide. */
  lemma DecimalInjective(a: nat, b: nat)
    ensures Decimal(a) == Decimal(b) ==> a == b
  {
    ParseDecimalOfDecimal(a);
    ParseDecimalOfDecimal(b);
  }

  /** A fixed prefix followed by a number names that number and no other. */
  lemma NumberedInjective(prefix: string, a: nat, b: nat)
    ensures prefix + Decimal(a) == prefix + Decimal(b) ==> a == b
  {
    if prefix + Decimal(a) == prefix + Decimal(b) {
      assert Decimal(a) == (prefix + Decimal(a))[|prefix|..];
      assert Decimal(b) == (prefix + Decimal(b))[|prefix|..];
      DecimalInjective(a, b);
    }
  }
}
