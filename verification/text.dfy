/** The parts of Python's `str` behaviour the catalog relies on: `lower()`,
    whitespace `split()`, code-point lexicographic `<` and `<=`, substring
    `in`, and `str()` of an integer. */
module Text {
  import opened Ordering

  /** Python's `str.isspace()` characters, the separators of `str.split()`. */
  predicate IsSpace(c: char) {
    || ('\t' <= c <= '\r')
    || ('\U{1C}' <= c <= '\U{1F}')
    || c == ' ' || c == '\U{85}' || c == '\U{A0}' || c == '\U{1680}'
    || ('\U{2000}' <= c <= '\U{200A}')
    || c == '\U{2028}' || c == '\U{2029}' || c == '\U{202F}' || c == '\U{205F}' || c == '\U{3000}'
  }

  function LowerChar(c: char): char {
    if 'A' <= c <= 'Z' then (c as int - 'A' as int + 'a' as int) as char else c
  }

  /** `s.lower()`, on the ASCII letters. */
  function Lower(s: string): (r: string)
    ensures |r| == |s|
    ensures forall i :: 0 <= i < |s| ==> r[i] == LowerChar(s[i])
  {
    seq(|s|, i requires 0 <= i < |s| => LowerChar(s[i]))
  }

  /** Lowering twice is lowering once, so comparing lowered strings is
      insensitive to the case of either side. */
  lemma LowerIdempotent(s: string)
    ensures Lower(Lower(s)) == Lower(s)
  {
  }

  /** Python's `a < b` on strings: lexicographic by code point, a proper
      prefix sorting first. */
  predicate StrLess(a: string, b: string)
    decreases |a|
  {
    if |a| == 0 then |b| > 0
    else if |b| == 0 then false
    else if a[0] != b[0] then a[0] < b[0]
    else StrLess(a[1..], b[1..])
  }

  /** Python's `a <= b` on strings. */
  predicate StrLessEq(a: string, b: string) {
    a == b || StrLess(a, b)
  }

  lemma {:induction false} StrLessIrreflexive(a: string)
    ensures !StrLess(a, a)
    decreases |a|
  {
    if |a| > 0 {
      StrLessIrreflexive(a[1..]);
    }
  }

  lemma {:induction false} StrLessTransitive(a: string, b: string, c: string)
    requires StrLess(a, b) && StrLess(b, c)
    ensures StrLess(a, c)
    decreases |a|
  {
    if |a| > 0 && a[0] == b[0] && b[0] == c[0] {
      StrLessTransitive(a[1..], b[1..], c[1..]);
    }
  }

  lemma {:induction false} StrLessTrichotomy(a: string, b: string)
    ensures a == b || StrLess(a, b) || StrLess(b, a)
    decreases |a|
  {
    if |a| > 0 && |b| > 0 && a[0] == b[0] {
      StrLessTrichotomy(a[1..], b[1..]);
      if a[1..] == b[1..] {
        assert a == [a[0]] + a[1..] && b == [b[0]] + b[1..];
      }
    }
  }

  /** Python's string `<` is a strict total order, the precondition under
      which a binary search over strings is complete. */
  lemma StrLessIsStrictTotalOrder()
    ensures StrictTotalOrder(StrLess)
  {
    forall x ensures !StrLess(x, x) {
      StrLessIrreflexive(x);
    }
    forall x, y, z | StrLess(x, y) && StrLess(y, z) ensures StrLess(x, z) {
      StrLessTransitive(x, y, z);
    }
    forall x, y | x != y ensures StrLess(x, y) || StrLess(y, x) {
      StrLessTrichotomy(x, y);
    }
  }

  /** Python's string `<=` is a total order, the precondition under which
      merge sort over strings is sorted and stable. */
  lemma StrLessEqIsTotalOrder()
    ensures TotalOrder(StrLessEq)
  {
    forall x, y ensures StrLessEq(x, y) || StrLessEq(y, x) {
      StrLessTrichotomy(x, y);
    }
    forall x, y | StrLessEq(x, y) && StrLessEq(y, x) ensures x == y {
      if x != y {
        StrLessTransitive(x, y, x);
        StrLessIrreflexive(x);
      }
    }
    forall x, y, z | StrLessEq(x, y) && StrLessEq(y, z) ensures StrLessEq(x, z) {
      if x != y && y != z {
        StrLessTransitive(x, y, z);
      }
    }
  }

  /** Python's `needle in hay` on strings. */
  predicate Contains(hay: string, needle: string)
    decreases |hay|
  {
    needle <= hay || (|hay| > 0 && Contains(hay[1..], needle))
  }

  /** `needle` occurs in `hay` starting at offset `i`. */
  predicate OccursAt(hay: string, needle: string, i: int) {
    0 <= i && i + |needle| <= |hay| && hay[i..i + |needle|] == needle
  }

  /** `Contains` is the substring relation: the needle occurs at some offset. */
  lemma {:induction false} ContainsIffOccurs(hay: string, needle: string)
    ensures Contains(hay, needle) <==> exists i :: OccursAt(hay, needle, i)
    decreases |hay|
  {
    if |hay| > 0 {
      ContainsIffOccurs(hay[1..], needle);
      if needle <= hay {
        assert OccursAt(hay, needle, 0);
      } else if Contains(hay[1..], needle) {
        var i :| OccursAt(hay[1..], needle, i);
        assert hay[1..][i..i + |needle|] == hay[i + 1..i + 1 + |needle|];
        assert OccursAt(hay, needle, i + 1);
      }
      if exists i :: OccursAt(hay, needle, i) {
        var i :| OccursAt(hay, needle, i);
        if i > 0 {
          assert hay[1..][i - 1..i - 1 + |needle|] == hay[i..i + |needle|];
          assert OccursAt(hay[1..], needle, i - 1);
        } else {
          assert needle == hay[..|needle|];
        }
      }
    } else {
      if Contains(hay, needle) {
        assert OccursAt(hay, needle, 0);
      }
      if exists i :: OccursAt(hay, needle, i) {
        var i :| OccursAt(hay, needle, i);
        assert needle == [] && needle <= hay;
      }
    }
  }

  /** Number of leading characters of `s` before the first whitespace. */
  function TokenEnd(s: string): (n: nat)
    ensures n <= |s|
    ensures forall i :: 0 <= i < n ==> !IsSpace(s[i])
    ensures n < |s| ==> IsSpace(s[n])
    decreases |s|
  {
    if |s| == 0 || IsSpace(s[0]) then 0 else 1 + TokenEnd(s[1..])
  }

  /** Python's `s.split()` with no separator: the maximal runs of
      non-whitespace characters, in order. */
  function Split(s: string): (words: seq<string>)
    ensures forall w :: w in words ==> |w| > 0 && forall i :: 0 <= i < |w| ==> !IsSpace(w[i])
    decreases |s|
  {
    if |s| == 0 then []
    else if IsSpace(s[0]) then Split(s[1..])
    else
      var n := TokenEnd(s);
      [s[..n]] + Split(s[n..])
  }

  /** A run of non-whitespace characters followed by the end of the string
      or by whitespace ends the first token. */
  lemma {:induction false} TokenEndOfWord(w: string, rest: string)
    requires forall i :: 0 <= i < |w| ==> !IsSpace(w[i])
    requires |rest| == 0 || IsSpace(rest[0])
    ensures TokenEnd(w + rest) == |w|
    decreases |w|
  {
    if |w| == 0 {
      assert w + rest == rest;
    } else {
      assert (w + rest)[0] == w[0];
      assert (w + rest)[1..] == w[1..] + rest;
      TokenEndOfWord(w[1..], rest);
    }
  }

  /** `' '.join(words)`. */
  function Join(words: seq<string>): string
    decreases |words|
  {
    if |words| == 0 then ""
    else if |words| == 1 then words[0]
    else words[0] + " " + Join(words[1..])
  }

  /** Splitting undoes joining with single spaces, for non-empty words
      without whitespace. */
  lemma {:induction false} SplitJoin(words: seq<string>)
    requires forall w :: w in words ==> |w| > 0 && forall i :: 0 <= i < |w| ==> !IsSpace(w[i])
    ensures Split(Join(words)) == words
    decreases |words|
  {
    if |words| == 1 {
      var w := words[0];
      assert w + "" == w;
      TokenEndOfWord(w, "");
      assert w[|w|..] == "";
    } else if |words| > 1 {
      var w, rest := words[0], " " + Join(words[1..]);
      assert w in words;
      TokenEndOfWord(w, rest);
      var s := w + rest;
      AppendAssoc(w, " ", Join(words[1..]));
      assert Join(words) == s;
      assert s[..|w|] == w && s[|w|..] == rest;
      assert Split(rest) == Split(Join(words[1..])) by {
        assert rest[1..] == Join(words[1..]);
      }
      SplitJoin(words[1..]);
      assert words == [w] + words[1..];
    }
  }

  lemma {:induction false} ContainsInSuffix(s: string, k: nat, w: string)
    requires k <= |s| && Contains(s[k..], w)
    ensures Contains(s, w)
    decreases k
  {
    if k > 0 {
      assert s[1..][k - 1..] == s[k..];
      ContainsInSuffix(s[1..], k - 1, w);
    }
  }

  /** Every word `split()` returns occurs in the string. */
  lemma {:induction false} SplitWordsOccur(s: string)
    ensures forall w :: w in Split(s) ==> Contains(s, w)
    decreases |s|
  {
    if |s| > 0 {
      if IsSpace(s[0]) {
        SplitWordsOccur(s[1..]);
        forall w | w in Split(s) ensures Contains(s, w) {
          ContainsInSuffix(s, 1, w);
        }
      } else {
        var n := TokenEnd(s);
        SplitWordsOccur(s[n..]);
        forall w | w in Split(s) ensures Contains(s, w) {
          if w == s[..n] {
            assert w <= s;
          } else {
            ContainsInSuffix(s, n, w);
          }
        }
      }
    }
  }

  /** The set of words of a string, as `set(s.lower().split())`. */
  function WordSet(s: string): set<string> {
    set w | w in Split(Lower(s))
  }

  function DigitChar(d: int): char
    requires 0 <= d < 10
  {
    ('0' as int + d) as char
  }

  /** Decimal digits of a natural number, as `str(n)` prints them. */
  function NatToStr(n: nat): (s: string)
    ensures |s| > 0
    ensures forall i :: 0 <= i < |s| ==> '0' <= s[i] <= '9'
    decreases n
  {
    if n < 10 then [DigitChar(n)] else NatToStr(n / 10) + [DigitChar(n % 10)]
  }

  /** Python's `str(n)` for an integer. */
  function IntToStr(n: int): string {
    if n < 0 then "-" + NatToStr(-n) else NatToStr(n)
  }
}
