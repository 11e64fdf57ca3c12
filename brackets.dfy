// Bracket balance of printed text, for one pair of bracket characters.
// `Net` is the number of opening minus closing brackets, and `Low` the
// least such difference over all prefixes; a text is balanced when both
// are zero.
module Brackets {

  function Step(ch: char, open: char, close: char): int
  {
    if ch == open then 1 else if ch == close then -1 else 0
  }

  function Net(s: string, open: char, close: char): int
  {
    if s == [] then 0 else Net(s[..|s| - 1], open, close) + Step(s[|s| - 1], open, close)
  }

  function Min(a: int, b: int): int
  {
    if a <= b then a else b
  }

  function Low(s: string, open: char, close: char): (r: int)
    ensures r <= 0
  {
    if s == [] then 0 else Min(Low(s[..|s| - 1], open, close), Net(s, open, close))
  }

  predicate Balanced(s: string, open: char, close: char)
  {
    Net(s, open, close) == 0 && Low(s, open, close) == 0
  }

  /** `Low` is the least `Net` of a prefix: no prefix goes below it, and
    * some prefix reaches it. */
  lemma {:induction false} LowIsLeastPrefix(s: string, open: char, close: char)
    ensures forall k :: 0 <= k <= |s| ==> Low(s, open, close) <= Net(s[..k], open, close)
    ensures exists k :: 0 <= k <= |s| && Low(s, open, close) == Net(s[..k], open, close)
  {
    assert s[..|s|] == s;
    if s != [] {
      var t := s[..|s| - 1];
      LowIsLeastPrefix(t, open, close);
      forall k | 0 <= k < |s|
        ensures s[..k] == t[..k]
      {
      }
      if Low(s, open, close) != Net(s, open, close) {
        var j :| 0 <= j <= |t| && Low(t, open, close) == Net(t[..j], open, close);
        assert s[..j] == t[..j];
      }
    }
  }

  /** Balanced, spelled out: as many opening as closing brackets, and no
    * prefix with more closing than opening ones. */
  lemma BalancedMeaning(s: string, open: char, close: char)
    ensures Balanced(s, open, close) <==>
            Net(s, open, close) == 0 && forall k :: 0 <= k <= |s| ==> Net(s[..k], open, close) >= 0
  {
    LowIsLeastPrefix(s, open, close);
  }

  /** The profile of a concatenation. */
  lemma {:induction false} Concat(a: string, b: string, open: char, close: char)
    ensures Net(a + b, open, close) == Net(a, open, close) + Net(b, open, close)
    ensures Low(a + b, open, close) == Min(Low(a, open, close), Net(a, open, close) + Low(b, open, close))
  {
    if b == [] {
      assert a + b == a;
    } else {
      var t := b[..|b| - 1];
      assert (a + b)[..|a + b| - 1] == a + t;
      assert (a + b)[|a + b| - 1] == b[|b| - 1];
      Concat(a, t, open, close);
    }
  }

  /** A text without either bracket. */
  predicate Free(s: string, open: char, close: char)
  {
    forall i :: 0 <= i < |s| ==> s[i] != open && s[i] != close
  }

  /** A text without either bracket is balanced. */
  lemma {:induction false} NoBrackets(s: string, open: char, close: char)
    requires Free(s, open, close)
    ensures Balanced(s, open, close)
  {
    if s != [] {
      NoBrackets(s[..|s| - 1], open, close);
    }
  }

  /** The profile of a text `s` with one bracket character `ch` in it. */
  lemma OneBracket(s: string, pre: string, ch: char, post: string, open: char, close: char)
    requires s == pre + [ch] + post
    requires Free(pre, open, close) && Free(post, open, close)
    ensures Net(s, open, close) == Step(ch, open, close)
    ensures Low(s, open, close) == Min(0, Step(ch, open, close))
  {
    NoBrackets(pre, open, close);
    NoBrackets(post, open, close);
    assert [ch][..0] == [];
    Concat(pre, [ch], open, close);
    Concat(pre + [ch], post, open, close);
  }

  /** Texts that open one bracket, close one, or close one and open one. */
  predicate Opens(s: string, open: char, close: char)
  {
    Net(s, open, close) == 1 && Low(s, open, close) == 0
  }

  predicate Closes(s: string, open: char, close: char)
  {
    Net(s, open, close) == -1 && Low(s, open, close) == -1
  }

  predicate Reopens(s: string, open: char, close: char)
  {
    Net(s, open, close) == 0 && Low(s, open, close) == -1
  }

  /** A pair of texts printed around a balanced text: both balanced, or an
    * opening and a closing one. */
  predicate Frame(a: string, b: string, open: char, close: char)
  {
    (Balanced(a, open, close) && Balanced(b, open, close)) ||
    (Opens(a, open, close) && Closes(b, open, close))
  }

  /** Three texts printed around and between two balanced texts. */
  predicate Frame3(a: string, m: string, b: string, open: char, close: char)
  {
    (Balanced(a, open, close) && Balanced(m, open, close) && Balanced(b, open, close)) ||
    (Opens(a, open, close) && Reopens(m, open, close) && Closes(b, open, close))
  }

  lemma BalancedConcat(a: string, b: string, open: char, close: char)
    requires Balanced(a, open, close) && Balanced(b, open, close)
    ensures Balanced(a + b, open, close)
  {
    Concat(a, b, open, close);
  }

  lemma FrameBalanced(a: string, x: string, b: string, open: char, close: char)
    requires Frame(a, b, open, close) && Balanced(x, open, close)
    ensures Balanced(a + x + b, open, close)
  {
    Concat(a, x, open, close);
    Concat(a + x, b, open, close);
  }

  lemma Frame3Balanced(a: string, x: string, m: string, y: string, b: string, open: char, close: char)
    requires Frame3(a, m, b, open, close) && Balanced(x, open, close) && Balanced(y, open, close)
    ensures Balanced(a + x + m + y + b, open, close)
  {
    Concat(a, x, open, close);
    Concat(a + x, m, open, close);
    Concat(a + x + m, y, open, close);
    Concat(a + x + m + y, b, open, close);
  }
}
