/** Optional values and results, used wherever the Go code returns nil or an error. */
module Outcomes {
  datatype Option<+T> = None | Some(value: T)
  datatype Result<+T, +E> = Ok(value: T) | Err(error: E)
}

/** The two string operations the client relies on: `strings.TrimSpace` and the ordering of strings.
    Strings are sequences of Unicode scalar values; on valid UTF-8 Go's byte order is code-point order. */
module Text {

  /** `unicode.IsSpace`. */
  predicate IsSpace(c: char) {
    || c == ' ' || '\t' <= c <= '\r'
    || c == '\U{85}' || c == '\U{A0}' || c == '\U{1680}'
    || '\U{2000}' <= c <= '\U{200A}'
    || c == '\U{2028}' || c == '\U{2029}' || c == '\U{202F}' || c == '\U{205F}' || c == '\U{3000}'
  }

  /** The space characters, one by one. */
  lemma SpaceCharacters(c: char)
    ensures IsSpace(c) <==>
            c in ['\U{9}', '\U{A}', '\U{B}', '\U{C}', '\U{D}', '\U{20}', '\U{85}', '\U{A0}', '\U{1680}',
                  '\U{2000}', '\U{2001}', '\U{2002}', '\U{2003}', '\U{2004}', '\U{2005}', '\U{2006}', '\U{2007}', '\U{2008}',
                  '\U{2009}', '\U{200A}', '\U{2028}', '\U{2029}', '\U{202F}', '\U{205F}', '\U{3000}']
  {
  }

  function TrimLeft(s: string): (r: string)
    ensures |r| <= |s| && r == s[|s| - |r|..]
    ensures r == "" || !IsSpace(r[0])
    ensures s != "" && !IsSpace(s[0]) ==> r == s
  {
    if s != "" && IsSpace(s[0]) then TrimLeft(s[1..]) else s
  }

  function TrimRight(s: string): (r: string)
    ensures r <= s
    ensures r == "" || !IsSpace(r[|r| - 1])
    ensures s != "" && !IsSpace(s[|s| - 1]) ==> r == s
  {
    if s != "" && IsSpace(s[|s| - 1]) then TrimRight(s[..|s| - 1]) else s
  }

  function TrimSpace(s: string): string {
    TrimRight(TrimLeft(s))
  }

  /** No surrounding space. */
  predicate Trimmed(s: string) {
    s == "" || (!IsSpace(s[0]) && !IsSpace(s[|s| - 1]))
  }

  /** The trimmed strings are exactly the fixed points of trimming, so trimming is idempotent. */
  lemma TrimSpaceIdempotent(s: string)
    ensures Trimmed(TrimSpace(s))
    ensures TrimSpace(TrimSpace(s)) == TrimSpace(s)
    ensures Trimmed(s) <==> TrimSpace(s) == s
  {
    assert TrimSpace(s) == "" || TrimSpace(s)[0] == TrimLeft(s)[0];
  }

  /** Trimming cuts off space at both ends and nothing else. */
  lemma TrimSpaceCuts(s: string) returns (from: nat)
    ensures from + |TrimSpace(s)| <= |s| && TrimSpace(s) == s[from..from + |TrimSpace(s)|]
    ensures forall i | 0 <= i < |s| && (i < from || from + |TrimSpace(s)| <= i) :: IsSpace(s[i])
  {
    hide IsSpace, TrimLeft, TrimRight;
    var left := TrimLeft(s);
    from := |s| - |left|;
    forall i | 0 <= i < |s| && (i < from || from + |TrimSpace(s)| <= i)
      ensures IsSpace(s[i])
    {
      if i < from {
        LeftIsSpace(s, i);
      } else {
        RightIsSpace(left, i - from);
      }
    }
  }

  lemma {:induction false} LeftIsSpace(s: string, i: nat)
    requires i < |s| - |TrimLeft(s)|
    ensures IsSpace(s[i])
  {
    hide IsSpace;
    if i > 0 {
      LeftIsSpace(s[1..], i - 1);
    }
  }

  lemma {:induction false} RightIsSpace(s: string, i: nat)
    requires |TrimRight(s)| <= i < |s|
    ensures IsSpace(s[i])
  {
    hide IsSpace;
    if i < |s| - 1 {
      RightIsSpace(s[..|s| - 1], i);
    }
  }

  /** The order of strings: the empty text comes first, then the first characters decide. */
  lemma LeqCases(c: char, a: string, d: char, b: string)
    ensures Leq("", b) && !Leq([c] + a, "")
    ensures Leq([c] + a, [d] + b) <==> c < d || (c == d && Leq(a, b))
  {
    assert ([c] + a)[1..] == a && ([d] + b)[1..] == b;
  }

  lemma TrimOneSpace(s: string)
    requires Trimmed(s)
    ensures TrimSpace(" " + s) == s
  {
    TrimSpaceIdempotent(s);
    assert (" " + s)[1..] == s;
    assert TrimLeft(" " + s) == TrimLeft(s);
  }

  lemma TrimLastSpace(s: string)
    requires Trimmed(s) && s != ""
    ensures TrimSpace(s + " ") == s
  {
    var t := s + " ";
    assert t[0] == s[0] && t[|t| - 1] == ' ' && t[..|t| - 1] == s;
    assert TrimLeft(t) == t;
    assert TrimRight(t) == TrimRight(s) == s;
  }

  /** Lexicographic order. */
  predicate Leq(a: string, b: string) {
    a == "" || (b != "" && (a[0] < b[0] || (a[0] == b[0] && Leq(a[1..], b[1..]))))
  }

  lemma {:induction false} LeqAntisymmetric(a: string, b: string)
    requires Leq(a, b) && Leq(b, a)
    ensures a == b
  {
    if a != "" && b != "" {
      LeqAntisymmetric(a[1..], b[1..]);
      assert a == [a[0]] + a[1..] && b == [b[0]] + b[1..];
    }
  }
}
