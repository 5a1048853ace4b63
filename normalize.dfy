/** Whitespace normalisation: the `replace(/\s+/g, "")` applied to every text item and to the query. */
module Normalize {
  import opened Sequences

  /** The characters of JavaScript's `\s` class: the ECMAScript WhiteSpace
      code points (tab, vertical tab, form feed, space, no-break space,
      byte-order mark and the Zs category) and its LineTerminator code points. */
  predicate IsWs(c: char) {
    c == '\t' || c == '\n' || c == '\U{000B}' || c == '\U{000C}' || c == '\r'
    || c == ' ' || c == '\U{00A0}' || c == '\U{1680}' || ('\U{2000}' <= c <= '\U{200A}')
    || c == '\U{2028}' || c == '\U{2029}' || c == '\U{202F}' || c == '\U{205F}'
    || c == '\U{3000}' || c == '\U{FEFF}'
  }

  predicate NoWs(s: string) {
    forall i :: 0 <= i < |s| ==> !IsWs(s[i])
  }

  /** Deleting every whitespace run is the same as deleting every whitespace character. */
  function Strip(s: string): (r: string)
    ensures |r| <= |s|
    ensures NoWs(r)
  {
    if |s| == 0 then [] else (if IsWs(s[0]) then [] else [s[0]]) + Strip(s[1..])
  }

  lemma {:induction false} StripConcat(a: string, b: string)
    ensures Strip(a + b) == Strip(a) + Strip(b)
  {
    if |a| == 0 {
      assert a + b == b;
    } else {
      assert (a + b)[1..] == a[1..] + b;
      StripConcat(a[1..], b);
    }
  }

  /** A string without whitespace is left as it is. */
  lemma {:induction false} StripNoWs(s: string)
    requires NoWs(s)
    ensures Strip(s) == s
  {
    if |s| > 0 {
      StripNoWs(s[1..]);
    }
  }

  /** Normalising twice is normalising once. */
  lemma StripIdempotent(s: string)
    ensures Strip(Strip(s)) == Strip(s)
  {
    StripNoWs(Strip(s));
  }

  /** Only whitespace is removed: every other character keeps its number of
      occurrences, and no whitespace character survives. */
  lemma {:induction false} StripMultiset(s: string, c: char)
    ensures multiset(Strip(s))[c] == if IsWs(c) then 0 else multiset(s)[c]
  {
    if |s| > 0 {
      StripMultiset(s[1..], c);
      var head := if IsWs(s[0]) then [] else [s[0]];
      assert Strip(s) == head + Strip(s[1..]);
      assert multiset(Strip(s)) == multiset(head) + multiset(Strip(s[1..]));
      assert s == [s[0]] + s[1..];
      assert multiset(s) == multiset([s[0]]) + multiset(s[1..]);
    }
  }

  /** The characters that remain keep their original order. */
  lemma {:induction false} StripSubsequence(s: string)
    ensures IsSubsequence(Strip(s), s)
  {
    if |s| > 0 {
      StripSubsequence(s[1..]);
      if !IsWs(s[0]) {
        assert Strip(s)[0] == s[0] && Strip(s)[1..] == Strip(s[1..]);
      } else {
        assert Strip(s) == Strip(s[1..]);
      }
    }
  }

  /** A string made only of whitespace normalises to the empty string. */
  lemma {:induction false} StripAllWs(s: string)
    requires forall i :: 0 <= i < |s| ==> IsWs(s[i])
    ensures Strip(s) == []
  {
    if |s| > 0 {
      StripAllWs(s[1..]);
    }
  }

  /** Normalisation shortens a string exactly when it contains whitespace. */
  lemma {:induction false} StripLength(s: string)
    ensures |Strip(s)| == |s| <==> NoWs(s)
  {
    if |s| > 0 {
      StripLength(s[1..]);
      if NoWs(s) {
        assert NoWs(s[1..]) by { forall i | 0 <= i < |s| - 1 ensures !IsWs(s[1..][i]) { assert s[1..][i] == s[i + 1]; } }
      }
      if NoWs(s[1..]) && !IsWs(s[0]) {
        forall i | 0 <= i < |s| ensures !IsWs(s[i]) { if i > 0 { assert s[i] == s[1..][i - 1]; } }
      }
    }
  }
}
