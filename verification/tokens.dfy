/** String splitting (strtok_r in lib/string.c), which cuts tokens out of a buffer in place. */
module Tokens {
  import opened Wrappers

  const NUL: char := '\0'

  /** The end of the delimiter-free stretch that starts at i. */
  function End(s: string, delimiters: string, i: nat): (j: nat)
    requires i <= |s|
    ensures i <= j <= |s| && (forall k :: i <= k < j ==> s[k] !in delimiters) && (j < |s| ==> s[j] in delimiters)
    decreases |s| - i
  {
    if i == |s| || s[i] in delimiters then i else End(s, delimiters, i + 1)
  }

  /** Where a token starts, and where it ends. */
  datatype Span = Span(start: nat, end: nat)

  /** The tokens of s from position i on. */
  function Spans(s: string, delimiters: string, i: nat): seq<Span>
    requires i <= |s|
    decreases |s| - i
  {
    if i == |s| then []
    else if s[i] in delimiters then Spans(s, delimiters, i + 1)
    else [Span(i, End(s, delimiters, i))] + Spans(s, delimiters, End(s, delimiters, i))
  }

  /** A stretch free of delimiters that cannot be made longer. */
  ghost predicate Maximal(s: string, delimiters: string, p: Span) {
    && p.start < p.end <= |s|
    && (forall k :: p.start <= k < p.end ==> s[k] !in delimiters)
    && (p.start > 0 ==> s[p.start - 1] in delimiters)
    && (p.end < |s| ==> s[p.end] in delimiters)
  }

  /** The tokens are exactly the maximal delimiter-free stretches. */
  lemma {:induction false} SpansAreMaximal(s: string, delimiters: string, i: nat)
    requires i <= |s| && (i == 0 || i == |s| || s[i - 1] in delimiters || s[i] in delimiters)
    ensures forall p :: p in Spans(s, delimiters, i) <==> p.start >= i && Maximal(s, delimiters, p)
    decreases |s| - i
  {
    if i < |s| {
      if s[i] in delimiters {
        SpansAreMaximal(s, delimiters, i + 1);
      } else {
        var j := End(s, delimiters, i);
        SpansAreMaximal(s, delimiters, j);
        var rest := Spans(s, delimiters, j);
        assert Spans(s, delimiters, i) == [Span(i, j)] + rest;
        forall p: Span | p.start >= i && Maximal(s, delimiters, p) ensures p in Spans(s, delimiters, i) {
          FirstOrLater(s, delimiters, i, p);
          assert p == Span(i, j) || p in rest;
        }
      }
    }
  }

  /** A maximal stretch that starts no earlier than i is the one at i or starts behind it. */
  lemma FirstOrLater(s: string, delimiters: string, i: nat, p: Span)
    requires i < |s| && s[i] !in delimiters && p.start >= i && Maximal(s, delimiters, p)
    ensures p == Span(i, End(s, delimiters, i)) || p.start >= End(s, delimiters, i)
  {
  }

  // ---- the tokens as strings ----

  function Texts(s: string, spans: seq<Span>): (r: seq<string>)
    requires forall p :: p in spans ==> p.start <= p.end <= |s|
    ensures |r| == |spans|
  {
    seq(|spans|, k requires 0 <= k < |spans| => s[spans[k].start..spans[k].end])
  }

  lemma {:induction false} SpansInside(s: string, delimiters: string, i: nat)
    requires i <= |s|
    ensures forall p :: p in Spans(s, delimiters, i) ==> i <= p.start < p.end <= |s|
    decreases |s| - i
  {
    if i < |s| {
      if s[i] in delimiters {
        SpansInside(s, delimiters, i + 1);
      } else {
        SpansInside(s, delimiters, End(s, delimiters, i));
      }
    }
  }

  /** The tokens come in the order of the string. */
  lemma {:induction false} SpansInOrder(s: string, delimiters: string, i: nat, a: nat, b: nat)
    requires i <= |s| && a < b < |Spans(s, delimiters, i)|
    ensures Spans(s, delimiters, i)[a].end <= Spans(s, delimiters, i)[b].start
    decreases |s| - i
  {
    if s[i] in delimiters {
      SpansInOrder(s, delimiters, i + 1, a, b);
    } else {
      var j := End(s, delimiters, i);
      if a == 0 {
        SpansInside(s, delimiters, j);
        assert Spans(s, delimiters, i)[b] == Spans(s, delimiters, j)[b - 1];
      } else {
        SpansInOrder(s, delimiters, j, a - 1, b - 1);
      }
    }
  }

  /** The tokens of s, by direct recursion on the string. */
  function Split(s: string, delimiters: string): seq<string>
    decreases |s|
  {
    if s == [] then []
    else if s[0] in delimiters then Split(s[1..], delimiters)
    else [s[..End(s, delimiters, 0)]] + Split(s[End(s, delimiters, 0)..], delimiters)
  }

  lemma {:induction false} EndOfSuffix(s: string, delimiters: string, i: nat, k: nat)
    requires i + k <= |s|
    ensures End(s[i..], delimiters, k) + i == End(s, delimiters, i + k)
    decreases |s| - i - k
  {
    if i + k < |s| && s[i + k] !in delimiters {
      EndOfSuffix(s, delimiters, i, k + 1);
    }
  }

  /** Cutting spans out of the whole string or splitting its suffixes is the same. */
  lemma {:induction false} SplitIsTexts(s: string, delimiters: string, i: nat)
    requires i <= |s|
    ensures forall p :: p in Spans(s, delimiters, i) ==> p.start <= p.end <= |s|
    ensures Split(s[i..], delimiters) == Texts(s, Spans(s, delimiters, i))
    decreases |s| - i
  {
    SpansInside(s, delimiters, i);
    if i < |s| {
      if s[i] in delimiters {
        assert s[i..][1..] == s[i + 1..];
        SplitIsTexts(s, delimiters, i + 1);
      } else {
        var j := End(s, delimiters, i);
        EndOfSuffix(s, delimiters, i, 0);
        assert s[i..][..j - i] == s[i..j] && s[i..][j - i..] == s[j..];
        SplitIsTexts(s, delimiters, j);
        TextsOfMore(s, Span(i, j), Spans(s, delimiters, j));
      }
    }
  }

  lemma TextsOfMore(s: string, p: Span, spans: seq<Span>)
    requires p.start <= p.end <= |s| && forall q :: q in spans ==> q.start <= q.end <= |s|
    ensures Texts(s, [p] + spans) == [s[p.start..p.end]] + Texts(s, spans)
  {
  }

  // ---- strtok_r ----

  /** The buffer holds what is left of s from position i on, with its final null byte. */
  ghost predicate Holds(buf: array<char>, s: string, i: nat)
    reads buf
  {
    && buf.Length == |s| + 1 && i <= |s| && NUL !in s && buf[|s|] == NUL
    && forall k :: i <= k < |s| ==> buf[k] == s[k]
  }

  /**
   * strtok_r, going on at position p of the buffer. It cuts the next token out of the buffer by a null byte behind it,
   * changes nothing before, and reports the end exactly when no token is left.
   */
  method StrtokR(buf: array<char>, p: nat, delimiters: string, ghost s: string) returns (token: Option<nat>, save: nat, ghost end: nat)
    requires NUL !in delimiters && Holds(buf, s, p)
    modifies buf
    ensures save <= |s| && Holds(buf, s, save)
    ensures token.None? <==> Spans(s, delimiters, p) == []
    ensures token.None? ==> buf[..] == old(buf[..])
    ensures token.Some? ==>
              && p <= token.value < end <= save
              && Spans(s, delimiters, p) == [Span(token.value, end)] + Spans(s, delimiters, save)
              && (forall k :: token.value <= k < end ==> buf[k] == s[k]) && buf[end] == NUL
              && forall k :: 0 <= k < p ==> buf[k] == old(buf[k])
  {
    end := 0;
    var i := p;
    while buf[i] in delimiters || buf[i] == NUL
      invariant p <= i <= |s| && Spans(s, delimiters, i) == Spans(s, delimiters, p)
      decreases |s| - i
    {
      if buf[i] == NUL {
        return None, i, 0;
      }
      i := i + 1;
    }
    var start := i;
    assert start < |s| && s[start] !in delimiters;
    end := End(s, delimiters, start);
    while !(buf[i] in delimiters || buf[i] == NUL)
      invariant start <= i <= end
      decreases |s| - i
    {
      i := i + 1;
    }
    assert i == end && i > start;
    if buf[i] != NUL {
      buf[i] := NUL;
      save := i + 1;
    } else {
      save := i;
    }
    token := Some(start);
  }
}
