/** Text as the program compares and trims it. */
module Text {
  import opened Sequences

  /** Unicode White_Space. */
  predicate IsWhiteSpace(c: char) {
    || '\U{0009}' <= c <= '\U{000D}' || c == ' ' || c == '\U{0085}' || c == '\U{00A0}' || c == '\U{1680}'
    || '\U{2000}' <= c <= '\U{200A}' || c == '\U{2028}' || c == '\U{2029}' || c == '\U{202F}' || c == '\U{205F}'
    || c == '\U{3000}'
  }

  function TrimStart(s: string): string {
    if s != [] && IsWhiteSpace(s[0]) then TrimStart(s[1..]) else s
  }

  function TrimEnd(s: string): string {
    if s != [] && IsWhiteSpace(s[|s| - 1]) then TrimEnd(s[..|s| - 1]) else s
  }

  function Trim(s: string): string { TrimEnd(TrimStart(s)) }

  function AsciiUpper(s: string): string {
    if s == [] then [] else [if 'a' <= s[0] <= 'z' then s[0] - ' ' else s[0]] + AsciiUpper(s[1..])
  }

  /** Code point order, the order of UTF-8 strings. */
  predicate Less(a: string, b: string) {
    b != [] && (a == [] || a[0] < b[0] || (a[0] == b[0] && Less(a[1..], b[1..])))
  }

  /** A proper prefix comes first, else the first difference decides. */
  lemma {:induction false} FirstDifferenceDecides(a: string, b: string)
    ensures Less(a, b) <==>
            exists k: nat :: k <= |a| && k < |b| && a[..k] == b[..k] && (k == |a| || a[k] < b[k])
  {
    if a == "" || b == "" {
      assert b != "" ==> a[..0] == b[..0];
    } else if a[0] != b[0] {
      assert a[..0] == b[..0];
      forall k: nat | 0 < k <= |a| && k < |b| ensures a[..k] != b[..k] {
        assert a[..k][0] == a[0] && b[..k][0] == b[0];
      }
    } else {
      FirstDifferenceDecides(a[1..], b[1..]);
      forall k: nat | 0 < k <= |a| && k < |b|
        ensures a[..k] == b[..k] <==> a[1..][..k - 1] == b[1..][..k - 1]
      {
        assert a[..k] == [a[0]] + a[1..][..k - 1] && b[..k] == [b[0]] + b[1..][..k - 1];
      }
      if k: nat :| k <= |a[1..]| && k < |b[1..]| && a[1..][..k] == b[1..][..k]
                   && (k == |a[1..]| || a[1..][k] < b[1..][k]) {
        assert a[..k + 1] == b[..k + 1];
      }
      if k: nat :| k <= |a| && k < |b| && a[..k] == b[..k] && (k == |a| || a[k] < b[k]) {
        assert k > 0;
        assert a[1..][..k - 1] == b[1..][..k - 1];
      }
    }
  }

  lemma {:induction false} LessIsTotal(a: string, b: string)
    ensures Less(a, b) || a == b || Less(b, a)
    ensures !(Less(a, b) && Less(b, a)) && !Less(a, a)
  {
    if a != [] && b != [] {
      LessIsTotal(a[1..], b[1..]);
      assert a == [a[0]] + a[1..] && b == [b[0]] + b[1..];
    }
    if a != [] {
      LessIsTotal(a[1..], a[1..]);
    }
  }

  lemma {:induction false} LessIsTransitive(a: string, b: string, c: string)
    requires Less(a, b) && Less(b, c)
    ensures Less(a, c)
  {
    if a != [] && a[0] == b[0] == c[0] {
      LessIsTransitive(a[1..], b[1..], c[1..]);
    }
  }

  // ---- Trimming. ----

  predicate Blank(s: string) {
    forall k :: 0 <= k < |s| ==> IsWhiteSpace(s[k])
  }

  lemma {:induction false} TrimStartSplits(s: string)
    ensures |TrimStart(s)| <= |s| && s[|s| - |TrimStart(s)|..] == TrimStart(s) && Blank(s[..|s| - |TrimStart(s)|])
    ensures TrimStart(s) != "" ==> !IsWhiteSpace(TrimStart(s)[0])
  {
    if s != [] && IsWhiteSpace(s[0]) {
      TrimStartSplits(s[1..]);
      var n := |s| - |TrimStart(s)|;
      assert s[1..][n - 1..] == s[n..];
      forall k | 0 <= k < n ensures IsWhiteSpace(s[..n][k]) {
        if k > 0 { assert s[k] == s[1..][..n - 1][k - 1]; }
      }
    }
  }

  lemma {:induction false} TrimEndSplits(s: string)
    ensures |TrimEnd(s)| <= |s| && s[..|TrimEnd(s)|] == TrimEnd(s) && Blank(s[|TrimEnd(s)|..])
    ensures TrimEnd(s) != "" ==> !IsWhiteSpace(TrimEnd(s)[|TrimEnd(s)| - 1])
  {
    if s != [] && IsWhiteSpace(s[|s| - 1]) {
      var t := s[..|s| - 1];
      TrimEndSplits(t);
      var n := |TrimEnd(s)|;
      assert t[..n] == s[..n];
      forall k | 0 <= k < |s[n..]| ensures IsWhiteSpace(s[n..][k]) {
        if n + k < |t| { assert s[n + k] == t[n..][k]; }
      }
    }
  }

  lemma {:induction false} TrimStartOfBlank(blank: string, s: string)
    requires Blank(blank) && s != "" && !IsWhiteSpace(s[0])
    ensures TrimStart(blank + s) == s
    decreases |blank|
  {
    if blank == "" {
      assert blank + s == s;
    } else {
      assert (blank + s)[0] == blank[0] && (blank + s)[1..] == blank[1..] + s;
      TrimStartOfBlank(blank[1..], s);
    }
  }

  lemma {:induction false} TrimEndOfBlank(s: string, blank: string)
    requires Blank(blank) && s != "" && !IsWhiteSpace(s[|s| - 1])
    ensures TrimEnd(s + blank) == s
    decreases |blank|
  {
    if blank == "" {
      assert s + blank == s;
    } else {
      var n := |blank| - 1;
      assert (s + blank)[|s| + n] == blank[n] && (s + blank)[..|s| + n] == s + blank[..n];
      TrimEndOfBlank(s, blank[..n]);
    }
  }

  predicate ReadsAt(line: string, t: string, n: nat) {
    n + |t| <= |line| && Blank(line[..n]) && line[n..n + |t|] == t && Blank(line[n + |t|..])
  }

  /** The text is `t` with blanks around it. */
  predicate Reads(line: string, t: string) {
    exists n: nat | n <= |line| :: ReadsAt(line, t, n)
  }

  /** Text that neither starts nor ends with a blank. */
  predicate Tight(t: string) {
    t != "" && !IsWhiteSpace(t[0]) && !IsWhiteSpace(t[|t| - 1])
  }

  lemma TrimmedReads(s: string, n: nat, m: nat)
    requires n <= |s| && TrimStart(s) == s[n..] && Blank(s[..n])
    requires m <= |s| - n && TrimEnd(s[n..]) == s[n..][..m] && Blank(s[n..][m..])
    ensures ReadsAt(s, Trim(s), n)
  {
    CutTwice(s, n, m);
  }

  lemma ReadIsTrimmed(s: string, t: string, n: nat)
    requires Tight(t) && ReadsAt(s, t, n)
    ensures Trim(s) == t
  {
    var blank := s[n + |t|..];
    CutTwice(s, n, |t|);
    CutOnce(s[n..], |t|);
    CutOnce(s, n);
    TrimStartOfBlank(s[..n], t + blank);
    TrimEndOfBlank(t, blank);
  }

  /** Trimming takes off the blanks around and nothing else. */
  lemma TrimReads(s: string, t: string)
    requires Tight(t)
    ensures Trim(s) == t <==> Reads(s, t)
  {
    TrimStartSplits(s);
    TrimEndSplits(TrimStart(s));
    var n := |s| - |TrimStart(s)|;
    TrimmedReads(s, n, |Trim(s)|);
    hide ReadsAt, Trim, Tight;
    if m: nat :| m <= |s| && ReadsAt(s, t, m) {
      ReadIsTrimmed(s, t, m);
    }
  }
}
