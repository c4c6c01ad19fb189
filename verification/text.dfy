/**
 The string primitives the data-quality scripts rely on: Python's `str.split()`
 with no separator, `str.lower()` restricted to ASCII, the `in` substring test,
 and the two regular expressions the scripts use, written out as character
 predicates.
 */
module Text {
  import Counting

  /** Python's `str.isspace()` for a single character: the characters on which
      `str.split()` with no argument breaks a string. */
  predicate IsSpace(c: char) {
    || ('\t' <= c <= '\r')
    || ('\U{1C}' <= c <= ' ')
    || c == '\U{85}' || c == '\U{A0}' || c == '\U{1680}'
    || ('\U{2000}' <= c <= '\U{200A}')
    || c == '\U{2028}' || c == '\U{2029}' || c == '\U{202F}'
    || c == '\U{205F}' || c == '\U{3000}'
  }

  /** A token `str.split()` can return: non-empty, no whitespace. */
  predicate IsWord(w: string) {
    |w| > 0 && forall i :: 0 <= i < |w| ==> !IsSpace(w[i])
  }

  /** Length of the leading run of non-whitespace characters. */
  function TokenLen(s: string): (n: nat)
    ensures n <= |s|
  {
    if |s| == 0 || IsSpace(s[0]) then 0 else 1 + TokenLen(s[1..])
  }

  /** The leading run holds no whitespace and ends at whitespace or at the end. */
  lemma {:induction false} TokenLenSpec(s: string)
    ensures forall i :: 0 <= i < TokenLen(s) ==> !IsSpace(s[i])
    ensures TokenLen(s) == |s| || IsSpace(s[TokenLen(s)])
    decreases |s|
  {
    if |s| > 0 && !IsSpace(s[0]) {
      TokenLenSpec(s[1..]);
      assert forall i :: 1 <= i < TokenLen(s) ==> s[i] == s[1..][i - 1];
    }
  }

  /** `s.split()`: the maximal runs of non-whitespace characters, in order. */
  function Split(s: string): seq<string>
    decreases |s|
  {
    if |s| == 0 then []
    else if IsSpace(s[0]) then Split(s[1..])
    else
      var n := TokenLen(s);
      [s[..n]] + Split(s[n..])
  }

  /** Every token is a non-empty run of non-whitespace characters. */
  lemma {:induction false} SplitWords(s: string)
    ensures forall k :: 0 <= k < |Split(s)| ==> IsWord(Split(s)[k])
    decreases |s|
  {
    if |s| > 0 {
      if IsSpace(s[0]) {
        SplitWords(s[1..]);
      } else {
        var n := TokenLen(s);
        SplitWords(s[n..]);
        TokenLenSpec(s);
        assert IsWord(s[..n]);
        assert forall k :: 1 <= k < |Split(s)| ==> Split(s)[k] == Split(s[n..])[k - 1];
      }
    }
  }

  /** The characters of `s` that are not whitespace, in order. */
  function NonSpace(s: string): string {
    if |s| == 0 then []
    else (if IsSpace(s[0]) then [] else [s[0]]) + NonSpace(s[1..])
  }

  function Concat(ws: seq<string>): string {
    if |ws| == 0 then [] else ws[0] + Concat(ws[1..])
  }

  /** `" ".join(ws)` */
  function JoinWithSpace(ws: seq<string>): string {
    if |ws| == 0 then []
    else if |ws| == 1 then ws[0]
    else ws[0] + " " + JoinWithSpace(ws[1..])
  }

  lemma {:induction false} ConcatAppend(a: seq<string>, b: seq<string>)
    ensures Concat(a + b) == Concat(a) + Concat(b)
    decreases |a|
  {
    if |a| > 0 {
      assert (a + b)[1..] == a[1..] + b;
      ConcatAppend(a[1..], b);
    } else {
      assert a + b == b;
    }
  }

  lemma {:induction false} NonSpaceAppend(a: string, b: string)
    ensures NonSpace(a + b) == NonSpace(a) + NonSpace(b)
    decreases |a|
  {
    if |a| > 0 {
      assert (a + b)[1..] == a[1..] + b;
      NonSpaceAppend(a[1..], b);
    } else {
      assert a + b == b;
    }
  }

  lemma {:induction false} NonSpaceOfWord(w: string)
    requires forall i :: 0 <= i < |w| ==> !IsSpace(w[i])
    ensures NonSpace(w) == w
    decreases |w|
  {
    if |w| > 0 {
      NonSpaceOfWord(w[1..]);
      assert w == [w[0]] + w[1..];
    }
  }

  /** Splitting loses exactly the whitespace: gluing the tokens back together
      gives the non-whitespace characters of the input, in order. */
  lemma {:induction false} SplitKeepsNonSpace(s: string)
    ensures Concat(Split(s)) == NonSpace(s)
    decreases |s|
  {
    if |s| == 0 {
    } else if IsSpace(s[0]) {
      SplitKeepsNonSpace(s[1..]);
    } else {
      var n := TokenLen(s);
      assert s == s[..n] + s[n..];
      SplitKeepsNonSpace(s[n..]);
      TokenLenSpec(s);
      ConcatAppend([s[..n]], Split(s[n..]));
      NonSpaceAppend(s[..n], s[n..]);
      NonSpaceOfWord(s[..n]);
    }
  }

  lemma {:induction false} TokenLenAppend(s: string, t: string)
    requires |t| == 0 || IsSpace(t[0])
    ensures TokenLen(s + t) == TokenLen(s)
    decreases |s|
  {
    if |s| == 0 {
      assert s + t == t;
    } else if !IsSpace(s[0]) {
      assert (s + t)[1..] == s[1..] + t;
      TokenLenAppend(s[1..], t);
    }
  }

  /** Whitespace separates tokens: splitting a concatenation whose second part
      starts with whitespace splits each part on its own. */
  lemma {:induction false} SplitAppend(s: string, t: string)
    requires |t| == 0 || IsSpace(t[0])
    ensures Split(s + t) == Split(s) + Split(t)
    decreases |s|
  {
    if |s| == 0 {
      assert s + t == t;
    } else if IsSpace(s[0]) {
      SplitAppend(s[1..], t);
      SplitAppendSpace(s, t);
    } else {
      SplitAppend(s[TokenLen(s)..], t);
      SplitAppendToken(s, t);
    }
  }

  /** The step of `SplitAppend` past a leading whitespace character. */
  lemma SplitAppendSpace(s: string, t: string)
    requires |s| > 0 && IsSpace(s[0])
    requires Split(s[1..] + t) == Split(s[1..]) + Split(t)
    ensures Split(s + t) == Split(s) + Split(t)
  {
    var u := s + t;
    assert u[0] == s[0];
    assert u[1..] == s[1..] + t;
    assert Split(u) == Split(u[1..]);
  }

  /** `Split` on a string that starts with a token: that token, then the rest. */
  lemma SplitTokenFirst(s: string)
    requires |s| > 0 && !IsSpace(s[0])
    ensures Split(s) == [s[..TokenLen(s)]] + Split(s[TokenLen(s)..])
  {
  }

  /** The step of `SplitAppend` past a leading token. */
  lemma SplitAppendToken(s: string, t: string)
    requires |s| > 0 && !IsSpace(s[0])
    requires |t| == 0 || IsSpace(t[0])
    requires Split(s[TokenLen(s)..] + t) == Split(s[TokenLen(s)..]) + Split(t)
    ensures Split(s + t) == Split(s) + Split(t)
  {
    var u := s + t;
    var n := TokenLen(s);
    TokenLenAppend(s, t);
    assert u[0] == s[0];
    SplitTokenFirst(u);
    SplitTokenFirst(s);
    SliceAppend(s, t, n);
    Counting.AppendAssoc([s[..n]], Split(s[n..]), Split(t));
  }

  /** Cutting a concatenation inside its first part. */
  lemma SliceAppend(s: string, t: string, n: nat)
    requires n <= |s|
    ensures (s + t)[..n] == s[..n]
    ensures (s + t)[n..] == s[n..] + t
  {
  }

  lemma SplitWord(w: string)
    requires IsWord(w)
    ensures Split(w) == [w]
  {
    var n := TokenLen(w);
    TokenLenSpec(w);
    assert n == |w|;
    assert w[..n] == w;
  }

  /** Every character of `s` is Python whitespace (the empty string included). */
  predicate AllSpace(s: string) {
    forall i :: 0 <= i < |s| ==> IsSpace(s[i])
  }

  /** A run of whitespace in front of a string yields no token: leading
      whitespace is dropped and a run of it separates like a single space. */
  lemma {:induction false} SplitSpaces(sp: string, s: string)
    requires AllSpace(sp)
    ensures Split(sp + s) == Split(s)
    decreases |sp|
  {
    if |sp| == 0 {
      assert sp + s == s;
    } else {
      var u := sp + s;
      assert u[0] == sp[0];
      assert u[1..] == sp[1..] + s;
      assert Split(u) == Split(u[1..]);
      SplitSpaces(sp[1..], s);
    }
  }

  /** After any whitespace, a word that ends at whitespace or at the end of
      the string is the next token. With `Split("") == []` and `SplitSpaces`,
      this fixes `Split` on every input. */
  lemma SplitWordThen(sp: string, w: string, rest: string)
    requires AllSpace(sp) && IsWord(w)
    requires |rest| == 0 || IsSpace(rest[0])
    ensures Split(sp + w + rest) == [w] + Split(rest)
  {
    Counting.AppendAssoc(sp, w, rest);
    SplitSpaces(sp, w + rest);
    SplitAppend(w, rest);
    SplitWord(w);
  }

  /** Round trip: splitting words joined by single spaces gives the words back. */
  lemma {:induction false} SplitJoin(ws: seq<string>)
    requires forall k :: 0 <= k < |ws| ==> IsWord(ws[k])
    ensures Split(JoinWithSpace(ws)) == ws
    decreases |ws|
  {
    if |ws| == 1 {
      SplitWord(ws[0]);
    } else if |ws| > 1 {
      var rest := " " + JoinWithSpace(ws[1..]);
      assert JoinWithSpace(ws) == ws[0] + rest;
      SplitAppend(ws[0], rest);
      SplitWord(ws[0]);
      assert rest[1..] == JoinWithSpace(ws[1..]);
      SplitJoin(ws[1..]);
    }
  }

  /** Two words separated by one space, optionally followed by a final line
      break, split into exactly those two words. */
  lemma SplitTwoWords(w1: string, w2: string, tail: string)
    requires IsWord(w1) && IsWord(w2)
    requires tail == [] || tail == "\n"
    ensures Split(w1 + " " + w2 + tail) == [w1, w2]
  {
    SplitJoin([w1, w2]);
    assert JoinWithSpace([w1, w2]) == w1 + " " + JoinWithSpace([w2]);
    SplitAppend(w1 + " " + w2, tail);
    if tail == "\n" {
      assert Split(tail) == Split(tail[1..]);
    }
  }

  // ---------------------------------------------------------------------
  // Case folding (ASCII)

  function LowerChar(c: char): char {
    if 'A' <= c <= 'Z' then (c as int + 32) as char else c
  }

  /** `s.lower()` on ASCII letters; every other character is kept. */
  function Lower(s: string): (r: string)
    ensures |r| == |s|
    ensures forall i :: 0 <= i < |s| ==> r[i] == LowerChar(s[i])
  {
    seq(|s|, i requires 0 <= i < |s| => LowerChar(s[i]))
  }

  /** Lower-casing twice is lower-casing once. */
  lemma LowerIdempotent(s: string)
    ensures Lower(Lower(s)) == Lower(s)
  {
    assert forall i :: 0 <= i < |s| ==> LowerChar(LowerChar(s[i])) == LowerChar(s[i]);
  }

  function LowerAll(ws: seq<string>): (r: seq<string>)
    ensures |r| == |ws|
    ensures forall k :: 0 <= k < |ws| ==> r[k] == Lower(ws[k])
  {
    seq(|ws|, k requires 0 <= k < |ws| => Lower(ws[k]))
  }

  lemma {:induction false} TokenLenLower(s: string)
    ensures TokenLen(Lower(s)) == TokenLen(s)
    decreases |s|
  {
    if |s| > 0 && !IsSpace(s[0]) {
      assert Lower(s)[1..] == Lower(s[1..]);
      TokenLenLower(s[1..]);
    }
  }

  /** Lower-casing does not move token boundaries: the tokens of the lowered
      string are the lowered tokens. */
  lemma {:induction false} SplitLower(s: string)
    ensures Split(Lower(s)) == LowerAll(Split(s))
    decreases |s|
  {
    if |s| == 0 {
    } else if IsSpace(s[0]) {
      SplitLower(s[1..]);
      SplitLowerSpace(s);
    } else {
      SplitLower(s[TokenLen(s)..]);
      SplitLowerToken(s);
    }
  }

  /** The step of `SplitLower` past a leading whitespace character. */
  lemma SplitLowerSpace(s: string)
    requires |s| > 0 && IsSpace(s[0])
    requires Split(Lower(s[1..])) == LowerAll(Split(s[1..]))
    ensures Split(Lower(s)) == LowerAll(Split(s))
  {
    assert Lower(s)[0] == LowerChar(s[0]);
    assert Lower(s)[1..] == Lower(s[1..]);
    assert Split(Lower(s)) == Split(Lower(s)[1..]);
  }

  /** The step of `SplitLower` past a leading token. */
  lemma SplitLowerToken(s: string)
    requires |s| > 0 && !IsSpace(s[0])
    requires Split(Lower(s[TokenLen(s)..])) == LowerAll(Split(s[TokenLen(s)..]))
    ensures Split(Lower(s)) == LowerAll(Split(s))
  {
    var n := TokenLen(s);
    var l := Lower(s);
    TokenLenLower(s);
    assert l[0] == LowerChar(s[0]);
    SplitTokenFirst(l);
    SplitTokenFirst(s);
    LowerSlice(s, n);
    LowerAllCons(s[..n], Split(s[n..]));
  }

  /** Lower-casing commutes with cutting. */
  lemma LowerSlice(s: string, n: nat)
    requires n <= |s|
    ensures Lower(s)[..n] == Lower(s[..n])
    ensures Lower(s)[n..] == Lower(s[n..])
  {
  }

  lemma LowerAllCons(w: string, ws: seq<string>)
    ensures LowerAll([w] + ws) == [Lower(w)] + LowerAll(ws)
  {
  }

  // ---------------------------------------------------------------------
  // Substrings

  predicate IsPrefix(p: string, s: string) {
    |p| <= |s| && s[..|p|] == p
  }

  /** Python's `sub in s`, scanning start positions left to right. */
  predicate Contains(s: string, sub: string)
    decreases |s|
  {
    IsPrefix(sub, s) || (|s| > 0 && Contains(s[1..], sub))
  }

  /** `sub` occurs in `s` starting at index `i`. */
  predicate OccursAt(s: string, sub: string, i: int) {
    0 <= i && i + |sub| <= |s| && s[i..i + |sub|] == sub
  }

  /** The scan agrees with the positional definition of a substring. */
  lemma {:induction false} ContainsIff(s: string, sub: string)
    ensures Contains(s, sub) <==> exists i :: OccursAt(s, sub, i)
    decreases |s|
  {
    if IsPrefix(sub, s) {
      assert OccursAt(s, sub, 0);
    }
    if |s| > 0 {
      ContainsIff(s[1..], sub);
      if Contains(s[1..], sub) {
        var i :| OccursAt(s[1..], sub, i);
        assert OccursAt(s, sub, i + 1);
      }
      if exists i :: OccursAt(s, sub, i) {
        var i :| OccursAt(s, sub, i);
        if i > 0 {
          assert OccursAt(s[1..], sub, i - 1);
        }
      }
    }
  }

  /** Every string contains itself. */
  lemma ContainsSelf(s: string)
    ensures Contains(s, s)
  {
    assert s[..|s|] == s;
  }

  /** A cheap witness that `sub in s` fails: the first or the second
      character of `sub` never occurs in `s`, or `sub` is longer than `s`. */
  predicate Excluded(s: string, sub: string) {
    || (|sub| > 0 && sub[0] !in s)
    || (|sub| > 1 && sub[1] !in s)
    || |sub| > |s|
  }

  lemma ExcludedAbsent(s: string, sub: string)
    requires Excluded(s, sub)
    ensures !Contains(s, sub)
  {
    ContainsIff(s, sub);
    forall i | 0 <= i
      ensures !OccursAt(s, sub, i)
    {
      if i + |sub| <= |s| && |sub| > 0 {
        assert s[i..i + |sub|][0] == s[i];
        if |sub| > 1 {
          assert s[i..i + |sub|][1] == s[i + 1];
        }
      }
    }
  }

  // ---------------------------------------------------------------------
  // The regular expressions

  predicate IsDigit(c: char) { '0' <= c <= '9' }
  predicate IsUpper(c: char) { 'A' <= c <= 'Z' }
  predicate IsLower(c: char) { 'a' <= c <= 'z' }

  predicate AllDigits(t: string) {
    forall i :: 0 <= i < |t| ==> IsDigit(t[i])
  }

  /** Python's `$` without MULTILINE: the end of the string, or just before a
      line break that is the string's last character. */
  predicate EndAnchor(s: string, j: int) {
    j == |s| || (j == |s| - 1 && 0 <= j && s[j] == '\n')
  }

  /** `re.search(r'\d+$', s)` succeeds: a non-empty run of digits ends at `$`. */
  predicate TrailingDigitsMatch(s: string) {
    exists i, j | 0 <= i < j <= |s| :: AllDigits(s[i..j]) && EndAnchor(s, j)
  }

  /** The last character is a digit, or the string ends in a digit and one line break. */
  predicate EndsInDigit(s: string) {
    || (|s| >= 1 && IsDigit(s[|s| - 1]))
    || (|s| >= 2 && s[|s| - 1] == '\n' && IsDigit(s[|s| - 2]))
  }

  /** The trailing-digits search depends only on the last one or two characters:
      a digit anywhere else never makes it succeed. */
  lemma TrailingDigitsIff(s: string)
    ensures TrailingDigitsMatch(s) <==> EndsInDigit(s)
  {
    if TrailingDigitsMatch(s) {
      var i, j :| 0 <= i < j <= |s| && AllDigits(s[i..j]) && EndAnchor(s, j);
      assert s[i..j][j - 1 - i] == s[j - 1];
    }
    if |s| >= 1 && IsDigit(s[|s| - 1]) {
      assert AllDigits(s[|s| - 1..|s|]);
    } else if |s| >= 2 && s[|s| - 1] == '\n' && IsDigit(s[|s| - 2]) {
      assert AllDigits(s[|s| - 2..|s| - 1]);
      assert EndAnchor(s, |s| - 1);
    }
  }

  /** `[A-Z][a-z]+` */
  predicate IsCapWord(w: string) {
    |w| >= 2 && IsUpper(w[0]) && forall i :: 1 <= i < |w| ==> IsLower(w[i])
  }

  /** Drops one final line break, the character `$` may stand before. */
  function DropFinalNewline(s: string): (r: string)
    ensures r == s || (s == r + "\n")
  {
    if |s| > 0 && s[|s| - 1] == '\n' then s[..|s| - 1] else s
  }

  /** `re.match(r'^[A-Z][a-z]+ [A-Z][a-z]+$', s)` with the space at index `k`. */
  predicate SimpleNameAt(s: string, k: int) {
    0 < k < |s| && s[k] == ' ' && IsCapWord(s[..k]) && IsCapWord(DropFinalNewline(s[k + 1..]))
  }

  predicate MatchesSimpleName(s: string) {
    exists k | 0 < k < |s| :: SimpleNameAt(s, k)
  }

  lemma CapWordIsWord(w: string)
    requires IsCapWord(w)
    ensures IsWord(w)
    ensures forall i :: 0 <= i < |w| ==> w[i] != ' '
  {
  }

  /** `s.count(c)` for a single character. */
  function CountChar(s: string, c: char): (n: nat)
    ensures n <= |s|
  {
    if |s| == 0 then 0 else (if s[0] == c then 1 else 0) + CountChar(s[1..], c)
  }

  lemma {:induction false} CountCharAppend(a: string, b: string, c: char)
    ensures CountChar(a + b, c) == CountChar(a, c) + CountChar(b, c)
    decreases |a|
  {
    if |a| == 0 {
      assert a + b == b;
    } else {
      assert (a + b)[1..] == a[1..] + b;
      CountCharAppend(a[1..], b, c);
    }
  }

  lemma {:induction false} CountCharAbsent(s: string, c: char)
    requires forall i :: 0 <= i < |s| ==> s[i] != c
    ensures CountChar(s, c) == 0
    decreases |s|
  {
    if |s| > 0 {
      CountCharAbsent(s[1..], c);
    }
  }

  /** A string matching the simple-name pattern is two capitalised words around
      its only space, and `split()` returns exactly those words. */
  lemma SimpleNameShape(s: string, k: int)
    requires SimpleNameAt(s, k)
    ensures var w2 := DropFinalNewline(s[k + 1..]);
      && s == s[..k] + " " + w2 + (if w2 == s[k + 1..] then [] else "\n")
      && Split(s) == [s[..k], w2]
      && CountChar(s, ' ') == 1
      && |s| == k + 1 + |w2| + (if w2 == s[k + 1..] then 0 else 1)
  {
    var w1 := s[..k];
    var rest := s[k + 1..];
    var w2 := DropFinalNewline(rest);
    var tail: string := if w2 == rest then [] else "\n";
    assert rest == w2 + tail;
    assert s == w1 + " " + w2 + tail;
    CapWordIsWord(w1);
    CapWordIsWord(w2);
    SplitTwoWords(w1, w2, tail);
    CountCharAbsent(w1, ' ');
    CountCharAbsent(w2, ' ');
    CountCharAbsent(tail, ' ');
    CountCharAppend(w1, " ", ' ');
    CountCharAppend(w1 + " ", w2, ' ');
    CountCharAppend(w1 + " " + w2, tail, ' ');
  }
}
