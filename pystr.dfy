/** The Python string built-ins the chat server relies on: `strip()`,
    `split()` on whitespace (optionally with `maxsplit`), `split(sep, maxsplit)`
    on a single character, `sep.join(...)`, `startswith`, `lower()`, `int(str)`
    and `str(int)`.  Whitespace is Python's whole whitespace set; digits
    and the letters `lower()` folds are the ASCII ones. */
module PyStr {
  import opened Wrappers

  /** The characters Python's `str.isspace()` accepts, which are also the
      separators of `split()` and what `strip()` removes: tab through
      carriage return, the four information separators, space, next line,
      no-break space, and the Unicode space characters. */
  predicate IsSpace(c: char) {
    ('\t' <= c <= '\r') || ('\U{1C}' <= c <= ' ')
    || c == '\U{85}' || c == '\U{A0}' || c == '\U{1680}'
    || ('\U{2000}' <= c <= '\U{200A}') || c == '\U{2028}' || c == '\U{2029}'
    || c == '\U{202F}' || c == '\U{205F}' || c == '\U{3000}'
  }

  /** `c.isdigit()` restricted to the ASCII digits. */
  predicate IsDigit(c: char) {
    '0' as int <= c as int <= '9' as int
  }

  predicate NoSpace(s: string) {
    forall i :: 0 <= i < |s| ==> !IsSpace(s[i])
  }

  predicate StartsWith(s: string, prefix: string) {
    prefix <= s
  }

  function LowerChar(c: char): char {
    if 'A' <= c <= 'Z' then (c as int + 32) as char else c
  }

  /** `s.lower()` on ASCII letters. */
  function Lower(s: string): string {
    seq(|s|, i requires 0 <= i < |s| => LowerChar(s[i]))
  }

  // ---------------------------------------------------------------- strip

  /** Length of the leading run of whitespace. */
  function LeadingSpaces(s: string): (k: nat)
    ensures k <= |s|
    ensures forall i :: 0 <= i < k ==> IsSpace(s[i])
    ensures k < |s| ==> !IsSpace(s[k])
  {
    if |s| > 0 && IsSpace(s[0]) then 1 + LeadingSpaces(s[1..]) else 0
  }

  /** Length of `s` without its trailing run of whitespace. */
  function TrailingStart(s: string): (k: nat)
    ensures k <= |s|
    ensures forall i :: k <= i < |s| ==> IsSpace(s[i])
    ensures 0 < k ==> !IsSpace(s[k - 1])
  {
    if |s| > 0 && IsSpace(s[|s| - 1]) then TrailingStart(s[..|s| - 1]) else |s|
  }

  /** `s.lstrip()`. */
  function LStrip(s: string): string {
    s[LeadingSpaces(s)..]
  }

  /** `s.strip()`. */
  function Strip(s: string): string {
    var t := LStrip(s);
    t[..TrailingStart(t)]
  }

  lemma StripNoSpace(s: string)
    requires NoSpace(s)
    ensures Strip(s) == s
  {
    if |s| > 0 {
      assert LeadingSpaces(s) == 0;
      assert TrailingStart(s) == |s|;
    }
  }

  // ------------------------------------------- split on one separator char

  /** `s.find(c)` as an option: the first index holding `c`. */
  function Find(s: string, c: char): (r: Option<nat>)
    ensures r.Some? ==> r.value < |s| && s[r.value] == c
  {
    if |s| == 0 then None
    else if s[0] == c then Some(0)
    else match Find(s[1..], c)
      case None => None
      case Some(i) => Some(i + 1)
  }

  /** `Find` returns the first occurrence, and `None` only when there is none. */
  lemma {:induction false} FindFirst(s: string, c: char)
    ensures Find(s, c).None? ==> c !in s
    ensures Find(s, c).Some? ==> c !in s[..Find(s, c).value]
    decreases |s|
  {
    if |s| > 0 && s[0] != c {
      FindFirst(s[1..], c);
      assert s == [s[0]] + s[1..];
      match Find(s[1..], c)
      case None =>
      case Some(i) => assert s[..i + 1] == [s[0]] + s[1..][..i];
    }
  }

  /** `s.split(c, n)`: split at the first `n` occurrences of `c`, keeping
      empty pieces. */
  function SplitN(s: string, c: char, n: nat): (r: seq<string>)
    ensures 1 <= |r| <= n + 1
    decreases |s|
  {
    if n == 0 then [s]
    else match Find(s, c)
      case None => [s]
      case Some(i) => [s[..i]] + SplitN(s[i + 1..], c, n - 1)
  }

  /** `s.split(c)` with no limit: every occurrence of `c` separates. */
  function SplitAll(s: string, c: char): (r: seq<string>)
    ensures |r| >= 1
    ensures forall k :: 0 <= k < |r| ==> c !in r[k]
  {
    SplitNPieces(s, c, |s|);
    SplitN(s, c, |s|)
  }

  /** No piece but the last holds the separator, nor the last one when the
      limit covers every character. */
  lemma {:induction false} SplitNPieces(s: string, c: char, n: nat)
    ensures forall k :: 0 <= k < |SplitN(s, c, n)| && (k < |SplitN(s, c, n)| - 1 || n >= |s|) ==>
      c !in SplitN(s, c, n)[k]
    decreases |s|
  {
    FindFirst(s, c);
    var f := Find(s, c);
    if n > 0 && f.Some? {
      var i := f.value;
      SplitNPieces(s[i + 1..], c, n - 1);
      assert SplitN(s, c, n) == [s[..i]] + SplitN(s[i + 1..], c, n - 1);
    }
  }

  /** `sep.join(parts)`. */
  function Join(parts: seq<string>, sep: string): string
    decreases |parts|
  {
    if |parts| == 0 then ""
    else if |parts| == 1 then parts[0]
    else parts[0] + sep + Join(parts[1..], sep)
  }

  /** Splitting and joining back with the same separator gives the string back. */
  lemma {:induction false} JoinSplitN(s: string, c: char, n: nat)
    ensures Join(SplitN(s, c, n), [c]) == s
    decreases |s|
  {
    var f := Find(s, c);
    if n > 0 && f.Some? {
      var i := f.value;
      var rest := SplitN(s[i + 1..], c, n - 1);
      JoinSplitN(s[i + 1..], c, n - 1);
      SplitNStep(s, c, n, i);
      JoinAround(s, c, i, rest);
    }
  }

  /** One split at the first separator. */
  lemma SplitNStep(s: string, c: char, n: nat, i: nat)
    requires n > 0 && Find(s, c) == Some(i)
    ensures i < |s| && SplitN(s, c, n) == [s[..i]] + SplitN(s[i + 1..], c, n - 1)
  {
  }

  /** Gluing the text before position `i` to pieces that join back into
      the text after it. */
  lemma JoinAround(s: string, c: char, i: nat, rest: seq<string>)
    requires i < |s| && s[i] == c && |rest| >= 1 && Join(rest, [c]) == s[i + 1..]
    ensures Join([s[..i]] + rest, [c]) == s
  {
    var a, b := s[..i], s[i + 1..];
    JoinCons(a, rest, [c]);
    assert s[..i + 1] == a + [c];
    assert s == s[..i + 1] + b;
  }

  /** `sep.join(s.split(sep)) == s`. */
  lemma JoinSplitAll(s: string, c: char)
    ensures Join(SplitAll(s, c), [c]) == s
  {
    JoinSplitN(s, c, |s|);
  }

  /** Joining pieces that do not contain the separator and splitting again
      recovers the pieces. */
  lemma {:induction false} SplitJoin(parts: seq<string>, c: char)
    requires |parts| >= 1
    requires forall k :: 0 <= k < |parts| ==> c !in parts[k]
    ensures SplitAll(Join(parts, [c]), c) == parts
    decreases |parts|
  {
    var s := Join(parts, [c]);
    if |parts| == 1 {
      SplitAllOne(s, c);
    } else {
      JoinFind(parts, c);
      SplitJoin(parts[1..], c);
      SplitAllShift(s, c, |parts[0]|);
      assert parts == [parts[0]] + parts[1..];
    }
  }

  /** With a limit of one split fewer than there are pieces, only the last
      piece may hold the separator. */
  lemma {:induction false} SplitNJoin(parts: seq<string>, c: char)
    requires |parts| >= 1
    requires forall k :: 0 <= k < |parts| - 1 ==> c !in parts[k]
    ensures SplitN(Join(parts, [c]), c, |parts| - 1) == parts
    decreases |parts|
  {
    if |parts| > 1 {
      JoinFind(parts, c);
      SplitNJoin(parts[1..], c);
      assert parts == [parts[0]] + parts[1..];
    }
  }

  /** In pieces joined by `c`, the first `c` ends the first piece. */
  lemma JoinFind(parts: seq<string>, c: char)
    requires |parts| > 1 && c !in parts[0]
    ensures var s := Join(parts, [c]);
      Find(s, c) == Some(|parts[0]|) && s[..|parts[0]|] == parts[0]
      && s[|parts[0]| + 1..] == Join(parts[1..], [c])
  {
    var s := Join(parts, [c]);
    var tail := Join(parts[1..], [c]);
    assert s == parts[0] + [c] + tail;
    var i := |parts[0]|;
    assert s[i] == c && s[..i] == parts[0];
    FindAt(s, c, i);
    assert s[i + 1..] == tail;
  }

  /** The first occurrence is where the separator first appears. */
  lemma FindAt(s: string, c: char, k: nat)
    requires k < |s| && s[k] == c && c !in s[..k]
    ensures Find(s, c) == Some(k)
  {
    FindFirst(s, c);
  }

  /** A string without the separator is one piece; with it, two or more. */
  lemma SplitAllOne(s: string, c: char)
    ensures c !in s ==> SplitAll(s, c) == [s]
    ensures c in s ==> |SplitAll(s, c)| >= 2
  {
    FindFirst(s, c);
    if c in s {
      SplitAllShift(s, c, Find(s, c).value);
    }
  }

  /** Likewise with a limit of one split. */
  lemma SplitOnce(s: string, c: char)
    ensures c !in s ==> SplitN(s, c, 1) == [s]
    ensures c in s ==> |SplitN(s, c, 1)| == 2
  {
    FindFirst(s, c);
  }

  /** A piece without the separator comes off first. */
  lemma SplitAllCons(w: string, c: char, rest: string)
    requires c !in w
    ensures SplitAll(w + [c] + rest, c) == [w] + SplitAll(rest, c)
  {
    var s := w + [c] + rest;
    assert s[..|w|] == w && s[|w|] == c;
    FindAt(s, c, |w|);
    SplitAllShift(s, c, |w|);
    assert s[|w| + 1..] == rest;
  }

  /** `Join` unfolds at its first part. */
  lemma JoinCons(x: string, rest: seq<string>, sep: string)
    requires |rest| >= 1
    ensures Join([x] + rest, sep) == x + sep + Join(rest, sep)
  {
    assert ([x] + rest)[1..] == rest;
  }

  /** `SplitAll` unfolds at the first separator. */
  lemma SplitAllShift(s: string, c: char, i: nat)
    requires Find(s, c) == Some(i)
    ensures SplitAll(s, c) == [s[..i]] + SplitAll(s[i + 1..], c)
  {
    SplitNEnough(s[i + 1..], c, |s| - 1, |s[i + 1..]|);
  }

  /** Once `n` covers every character, a larger limit changes nothing. */
  lemma {:induction false} SplitNEnough(s: string, c: char, n: nat, m: nat)
    requires n >= m >= |s|
    ensures SplitN(s, c, n) == SplitN(s, c, m)
    decreases |s|
  {
    var f := Find(s, c);
    if m > 0 && f.Some? {
      SplitNEnough(s[f.value + 1..], c, n - 1, m - 1);
    }
  }

  // ----------------------------------------------- split() on whitespace

  /** Length of the leading run of non-whitespace characters. */
  function TokenEnd(t: string): (k: nat)
    ensures k <= |t|
    ensures |t| > 0 && !IsSpace(t[0]) ==> k > 0
  {
    if |t| == 0 || IsSpace(t[0]) then 0 else 1 + TokenEnd(t[1..])
  }

  /** What `TokenEnd` cuts off is a word, and the cut is at whitespace. */
  lemma {:induction false} TokenEndWord(t: string)
    ensures NoSpace(t[..TokenEnd(t)])
    ensures TokenEnd(t) < |t| ==> IsSpace(t[TokenEnd(t)])
    decreases |t|
  {
    if |t| > 0 && !IsSpace(t[0]) {
      TokenEndWord(t[1..]);
      assert t[..TokenEnd(t)] == [t[0]] + t[1..][..TokenEnd(t[1..])];
    }
  }

  /** `s.split(maxsplit=n)`: skip whitespace, cut off at most `n` words, and
      return what remains (leading whitespace dropped, trailing kept) as a
      last piece if it is not empty. */
  function WsSplitN(s: string, n: nat): (r: seq<string>)
    ensures |r| <= n + 1
    decreases |s|
  {
    if |s| == 0 then []
    else if IsSpace(s[0]) then WsSplitN(s[1..], n)
    else if n == 0 then [s]
    else
      var k := TokenEnd(s);
      [s[..k]] + WsSplitN(s[k..], n - 1)
  }

  /** `s.split()`: the whitespace-separated words of `s`. */
  function WsSplit(s: string): (r: seq<string>)
    ensures forall k :: 0 <= k < |r| ==> IsWord(r[k])
  {
    WsSplitWords(s, |s|);
    WsSplitN(s, |s|)
  }

  /** A word of `split()`: non-empty, no whitespace. */
  predicate IsWord(w: string) {
    |w| > 0 && NoSpace(w)
  }

  /** Every piece is non-empty; all but the last are words, and so is the
      last when the limit covers every character. */
  lemma {:induction false} WsSplitWords(s: string, n: nat)
    ensures forall k :: 0 <= k < |WsSplitN(s, n)| ==>
      |WsSplitN(s, n)[k]| > 0 && (k < n || n >= |s| ==> NoSpace(WsSplitN(s, n)[k]))
    decreases |s|
  {
    if |s| == 0 {
    } else if IsSpace(s[0]) {
      WsSplitWords(s[1..], n);
    } else if n > 0 {
      var k := TokenEnd(s);
      TokenEndWord(s);
      WsSplitWords(s[k..], n - 1);
      assert WsSplitN(s, n) == [s[..k]] + WsSplitN(s[k..], n - 1);
    }
  }

  /** Words joined by single spaces split back into the same words. */
  lemma {:induction false} WsSplitJoin(words: seq<string>)
    requires forall k :: 0 <= k < |words| ==> IsWord(words[k])
    ensures WsSplit(Join(words, " ")) == words
    decreases |words|
  {
    var s := Join(words, " ");
    if |words| == 1 {
      assert s == words[0] + "";
      WsSplitWord(words[0], "", |s|);
    } else if |words| > 1 {
      var tail := Join(words[1..], " ");
      WsSplitJoinStep(words[0], tail);
      WsSplitJoin(words[1..]);
      assert words == [words[0]] + words[1..];
    }
  }

  /** A word, a space and more text: the word comes off first. */
  lemma WsSplitJoinStep(w: string, tail: string)
    requires IsWord(w)
    ensures WsSplit(w + " " + tail) == [w] + WsSplit(tail)
  {
    var t := " " + tail;
    var m := |w| + 1 + |tail|;
    assert w + " " + tail == w + t;
    WsSplitWordSpace(w, tail, m);
    WsSplitNEnough(tail, m - 1, |tail|);
  }

  lemma WsSplitWordSpace(w: string, tail: string, m: nat)
    requires IsWord(w) && m > 0
    ensures WsSplitN(w + (" " + tail), m) == [w] + WsSplitN(tail, m - 1)
  {
    WsSplitWord(w, " " + tail, m);
    WsSplitSpace(tail, m - 1);
  }

  /** A leading blank makes no difference to the words. */
  lemma WsSplitSpace(t: string, n: nat)
    ensures WsSplitN(" " + t, n) == WsSplitN(t, n)
  {
    assert (" " + t)[1..] == t;
  }

  /** A word followed by text that is empty or starts with whitespace comes
      off first. */
  lemma WsSplitWord(w: string, rest: string, n: nat)
    requires IsWord(w) && n > 0
    requires rest == "" || IsSpace(rest[0])
    ensures WsSplitN(w + rest, n) == [w] + WsSplitN(rest, n - 1)
  {
    var s := w + rest;
    assert s[0] == w[0];
    TokenEndOf(w, rest);
    assert s[..|w|] == w && s[|w|..] == rest;
  }

  lemma {:induction false} TokenEndOf(w: string, rest: string)
    requires NoSpace(w)
    requires rest == "" || IsSpace(rest[0])
    ensures TokenEnd(w + rest) == |w|
    decreases |w|
  {
    if |w| > 0 {
      assert (w + rest)[0] == w[0];
      assert (w + rest)[1..] == w[1..] + rest;
      TokenEndOf(w[1..], rest);
    } else {
      assert w + rest == rest;
    }
  }

  /** Once `n` covers every character, a larger limit changes nothing. */
  lemma {:induction false} WsSplitNEnough(s: string, n: nat, m: nat)
    requires n >= m >= |s|
    ensures WsSplitN(s, n) == WsSplitN(s, m)
    decreases |s|
  {
    if |s| == 0 {
    } else if IsSpace(s[0]) {
      WsSplitNEnough(s[1..], n, m);
    } else {
      var k := TokenEnd(s);
      WsSplitNEnough(s[k..], n - 1, m - 1);
    }
  }

  /** `line.strip().split()` is `line.split()`. */
  lemma StripSplit(line: string)
    ensures WsSplit(Strip(line)) == WsSplit(line)
  {
    var i := LeadingSpaces(line);
    var t := line[i..];
    var j := TrailingStart(t);
    WsSplitDropLeading(line, i, |line|);
    WsSplitDropTrailing(t, j, |line|);
    WsSplitNEnough(t[..j], |line|, |t[..j]|);
    WsSplitNEnough(t, |line|, |t|);
  }

  /** Leading whitespace is skipped. */
  lemma {:induction false} WsSplitDropLeading(s: string, i: nat, n: nat)
    requires i <= |s| && forall k :: 0 <= k < i ==> IsSpace(s[k])
    ensures WsSplitN(s, n) == WsSplitN(s[i..], n)
    decreases i
  {
    if i > 0 {
      assert s[1..][i - 1..] == s[i..];
      WsSplitDropLeading(s[1..], i - 1, n);
    }
  }

  /** Trailing whitespace is dropped when the limit covers every word. */
  lemma {:induction false} WsSplitDropTrailing(s: string, j: nat, n: nat)
    requires j <= |s| <= n && forall k :: j <= k < |s| ==> IsSpace(s[k])
    ensures WsSplitN(s, n) == WsSplitN(s[..j], n)
    decreases |s|, 1
  {
    if |s| == 0 {
    } else if IsSpace(s[0]) {
      if j == 0 {
        AllSpace(s, n);
        AllSpace(s[..j], n);
      } else {
        assert s[..j][1..] == s[1..][..j - 1];
        WsSplitDropTrailing(s[1..], j - 1, n);
      }
    } else {
      DropTrailingAfterWord(s, j, n);
    }
  }

  /** `WsSplitDropTrailing` when `s` starts with a word. */
  lemma {:induction false} DropTrailingAfterWord(s: string, j: nat, n: nat)
    requires j <= |s| <= n && forall k :: j <= k < |s| ==> IsSpace(s[k])
    requires |s| > 0 && !IsSpace(s[0])
    ensures WsSplitN(s, n) == WsSplitN(s[..j], n)
    decreases |s|, 0
  {
    assert j > 0;
    var k := TokenEnd(s);
    TokenEndWord(s);
    if j < |s| {
      TokenEndBound(s, j);
    }
    TokenEndPrefix(s, j);
    assert s[..j][..k] == s[..k];
    assert s[..j][k..] == s[k..][..j - k];
    WsSplitDropTrailing(s[k..], j - k, n - 1);
  }

  /** A string of whitespace has no words. */
  lemma {:induction false} AllSpace(s: string, n: nat)
    requires forall k :: 0 <= k < |s| ==> IsSpace(s[k])
    ensures WsSplitN(s, n) == []
    decreases |s|
  {
    if |s| > 0 {
      AllSpace(s[1..], n);
    }
  }

  /** The first word ends no later than the first whitespace at `j`. */
  lemma {:induction false} TokenEndBound(s: string, j: nat)
    requires j < |s| && IsSpace(s[j])
    ensures TokenEnd(s) <= j
    decreases |s|
  {
    if !IsSpace(s[0]) {
      TokenEndBound(s[1..], j - 1);
    }
  }

  /** Cutting the string after the first word does not move its end. */
  lemma {:induction false} TokenEndPrefix(s: string, j: nat)
    requires TokenEnd(s) <= j <= |s|
    ensures TokenEnd(s[..j]) == TokenEnd(s)
    decreases |s|
  {
    if |s| > 0 && j > 0 {
      assert s[..j][0] == s[0];
      if !IsSpace(s[0]) {
        assert s[..j][1..] == s[1..][..j - 1];
        TokenEndPrefix(s[1..], j - 1);
      }
    }
  }

  // ---------------------------------------------------- int() and str()

  predicate IsDecimal(d: string) {
    |d| > 0 && forall i :: 0 <= i < |d| ==> IsDigit(d[i])
  }

  function DigitValue(c: char): nat
    requires IsDigit(c)
  {
    c as int - '0' as int
  }

  /** The value of a string of decimal digits, most significant first. */
  function DigitsValue(d: string): nat
    requires forall i :: 0 <= i < |d| ==> IsDigit(d[i])
  {
    if |d| == 0 then 0
    else DigitsValue(d[..|d| - 1]) * 10 + DigitValue(d[|d| - 1])
  }

  /** `int(s)` on a string: optional surrounding whitespace, an optional
      sign, then one or more decimal digits; anything else raises ValueError,
      modelled as `None`. */
  function ParseInt(s: string): Option<int> {
    var t := Strip(s);
    if |t| > 0 && (t[0] == '-' || t[0] == '+') then
      var d := t[1..];
      if IsDecimal(d) then
        var v: int := DigitsValue(d);
        Some(if t[0] == '-' then -v else v)
      else None
    else if IsDecimal(t) then Some(DigitsValue(t))
    else None
  }

  function DigitChar(k: nat): (c: char)
    requires k < 10
    ensures IsDigit(c) && DigitValue(c) == k
  {
    ('0' as int + k) as char
  }

  /** `str(n)` for a natural number. */
  function NatToStr(n: nat): (r: string)
    ensures IsDecimal(r)
    ensures DigitsValue(r) == n
    decreases n
  {
    if n < 10 then [DigitChar(n)]
    else
      var r := NatToStr(n / 10) + [DigitChar(n % 10)];
      assert r[..|r| - 1] == NatToStr(n / 10);
      r
  }

  /** `str(i)` for an integer. */
  function IntToStr(i: int): (r: string)
    ensures NoSpace(r) && '\n' !in r && '/' !in r
  {
    if i < 0 then "-" + NatToStr(-i) else NatToStr(i)
  }

  /** `int(str(i)) == i`. */
  lemma ParseIntToStr(i: int)
    ensures ParseInt(IntToStr(i)) == Some(i)
  {
    var s := IntToStr(i);
    StripNoSpace(s);
    if i < 0 {
      assert s[1..] == NatToStr(-i);
    }
  }
}
