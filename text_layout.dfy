/** Fixed-width line breaking of the text shown in the speech bubble.
    SceneManager.insertNewlines puts a line break before every character whose
    index is a positive multiple of the width n.  This module gives the layout
    that loop produces an independent definition, `Wrapped` (a full line of n
    characters, a break, then the rest laid out the same way), and proves its
    properties: exact length, position of every character, the round trip back
    to the input, and the width bound on every line. */
module TextLayout {

  /** The reference layout: lines of exactly n characters separated by "\n",
      the last line holding what is left (between 1 and n characters). */
  function Wrapped(s: seq<char>, n: nat): seq<char>
    requires n > 0
    decreases |s|
  {
    if |s| <= n then s else s[..n] + "\n" + Wrapped(s[n..], n)
  }

  /** The separator the loop emits before the character at index i. */
  function BreakBefore(i: nat, n: nat): string
    requires n > 0
  {
    if i % n == 0 && i != 0 then "\n" else ""
  }

  /** Length of the laid-out text for an input of c characters. */
  function WrappedLength(c: nat, n: nat): nat
    requires n > 0
  {
    if c == 0 then 0 else c + (c - 1) / n
  }

  /** Output positions that hold an inserted break: every (n+1)-th one. */
  predicate IsBreakSlot(k: nat, n: nat)
  {
    k % (n + 1) == n
  }

  /** The input index of the character at output position k (not a break slot). */
  function SourceIndex(k: nat, n: nat): nat
  {
    k - k / (n + 1)
  }

  /** Removes the character at every break slot: the inverse of `Wrapped`. */
  function Unbreak(r: seq<char>, n: nat): seq<char>
    requires n > 0
    decreases |r|
  {
    if |r| <= n then r else r[..n] + Unbreak(r[n + 1..], n)
  }

  /** Removes every "\n". */
  function StripNewlines(s: seq<char>): seq<char>
  {
    if s == [] then []
    else (if s[0] == '\n' then [] else [s[0]]) + StripNewlines(s[1..])
  }

  // ---------------------------------------------------------------------------
  // Arithmetic on quotient and remainder

  lemma {:induction false} MulAtLeast(m: int, d: int)
    requires d > 0 && m >= 1
    ensures m * d >= d
    decreases m
  {
    assert m * d == (m - 1) * d + d;
    if m > 1 { MulAtLeast(m - 1, d); }
  }

  lemma DivModUnique(a: int, d: int, q: int, t: int)
    requires d > 0 && 0 <= t < d && a == q * d + t
    ensures a / d == q && a % d == t
  {
    var q', t' := a / d, a % d;
    assert a == q' * d + t';
    assert (q' - q) * d == t - t';
    if q' - q >= 1 { MulAtLeast(q' - q, d); }
    if q - q' >= 1 { MulAtLeast(q - q', d); }
  }

  lemma DivModShift(a: int, d: int)
    requires d > 0 && a >= d
    ensures (a - d) / d == a / d - 1 && (a - d) % d == a % d
  {
    var q, t := a / d, a % d;
    assert a - d == (q - 1) * d + t;
    DivModUnique(a - d, d, q - 1, t);
  }

  lemma DivModSmall(a: int, d: int)
    requires 0 <= a < d
    ensures a / d == 0 && a % d == a
  {
    DivModUnique(a, d, 0, a);
  }

  // ---------------------------------------------------------------------------
  // The loop's step

  /** Appending one character to the input appends that character to the
      layout, preceded by a break exactly when its index is a positive multiple
      of n: the body of the loop in insertNewlines. */
  lemma {:induction false} WrappedSnoc(t: seq<char>, c: char, n: nat)
    requires n > 0
    ensures Wrapped(t + [c], n) == Wrapped(t, n) + BreakBefore(|t|, n) + [c]
  {
    if |t| < n {
      DivModSmall(|t|, n);
      assert BreakBefore(|t|, n) == "";
      assert Wrapped(t, n) == t;
      assert Wrapped(t + [c], n) == t + [c];
    } else if |t| == n {
      var w := t + [c];
      assert w[..n] == t;
      assert w[n..] == [c];
      assert BreakBefore(|t|, n) == "\n";
      assert Wrapped(w, n) == t + "\n" + Wrapped([c], n);
    } else {
      var u := t[n..];
      var w := t + [c];
      WrappedSnoc(u, c, n);
      DivModShift(|t|, n);
      assert BreakBefore(|u|, n) == BreakBefore(|t|, n);
      assert w[..n] == t[..n];
      assert w[n..] == u + [c];
      assert Wrapped(w, n) == t[..n] + "\n" + Wrapped(u + [c], n);
      assert Wrapped(t, n) == t[..n] + "\n" + Wrapped(u, n);
    }
  }

  // ---------------------------------------------------------------------------
  // Properties of the layout

  /** Output length: count + (count - 1) / n characters, none for empty input. */
  lemma {:induction false} WrappedLengthIs(s: seq<char>, n: nat)
    requires n > 0
    ensures |Wrapped(s, n)| == WrappedLength(|s|, n)
    ensures |s| > 0 ==> |Wrapped(s, n)| == |s| + (|s| - 1) / n
    ensures |s| == 0 <==> Wrapped(s, n) == []
    decreases |s|
  {
    if |s| <= n {
      if |s| > 0 { DivModSmall(|s| - 1, n); }
    } else {
      WrappedLengthIs(s[n..], n);
      DivModShift(|s| - 1, n);
    }
  }

  /** Every output position is either a break slot holding "\n" or holds the
      input character at SourceIndex; inputs of at most n characters come back
      unchanged. */
  lemma {:induction false} WrappedAt(s: seq<char>, n: nat, k: nat)
    requires n > 0
    requires k < |Wrapped(s, n)|
    ensures IsBreakSlot(k, n) ==> Wrapped(s, n)[k] == '\n'
    ensures !IsBreakSlot(k, n) ==>
              SourceIndex(k, n) < |s| && Wrapped(s, n)[k] == s[SourceIndex(k, n)]
    decreases |s|
  {
    if |s| <= n {
      DivModSmall(k, n + 1);
    } else if k < n {
      DivModSmall(k, n + 1);
    } else if k == n {
      DivModSmall(k, n + 1);
    } else {
      var k' := k - (n + 1);
      DivModShift(k, n + 1);
      WrappedAt(s[n..], n, k');
    }
  }

  /** Deleting the break slots gives back the input exactly, whatever
      characters (newlines among them) the input holds. */
  lemma {:induction false} UnbreakWrapped(s: seq<char>, n: nat)
    requires n > 0
    ensures Unbreak(Wrapped(s, n), n) == s
    decreases |s|
  {
    if |s| > n {
      var r := Wrapped(s, n);
      UnbreakWrapped(s[n..], n);
      assert r[..n] == s[..n];
      assert r[n + 1..] == Wrapped(s[n..], n);
      assert s[..n] + s[n..] == s;
    }
  }

  lemma {:induction false} StripConcat(a: seq<char>, b: seq<char>)
    ensures StripNewlines(a + b) == StripNewlines(a) + StripNewlines(b)
    decreases |a|
  {
    if a != [] {
      var ab := a + b;
      StripConcat(a[1..], b);
      assert ab != [] && ab[0] == a[0];
      assert ab[1..] == a[1..] + b;
      assert StripNewlines(ab) == (if a[0] == '\n' then [] else [a[0]]) + StripNewlines(a[1..] + b);
    } else {
      assert a + b == b;
    }
  }

  lemma {:induction false} StripNoNewline(s: seq<char>)
    requires '\n' !in s
    ensures StripNewlines(s) == s
    decreases |s|
  {
    if s != [] {
      assert s[1..] + [] == s[1..];
      StripNoNewline(s[1..]);
      assert [s[0]] + s[1..] == s;
    }
  }

  /** Removing every newline from the output gives the input with its own
      newlines removed; for an input that has none, the input itself. */
  lemma {:induction false} StripWrapped(s: seq<char>, n: nat)
    requires n > 0
    ensures StripNewlines(Wrapped(s, n)) == StripNewlines(s)
    ensures '\n' !in s ==> StripNewlines(Wrapped(s, n)) == s
    decreases |s|
  {
    if |s| > n {
      StripWrapped(s[n..], n);
      StripConcat(s[..n] + "\n", Wrapped(s[n..], n));
      StripConcat(s[..n], "\n");
      StripConcat(s[..n], s[n..]);
      assert s[..n] + s[n..] == s;
    }
    if '\n' !in s {
      StripNoNewline(s);
    }
  }

  /** No line is wider than n: every stretch of more than n consecutive output
      characters contains a newline, so every newline-free stretch of the
      output has at most n characters. */
  lemma LinesAtMostWidth(s: seq<char>, n: nat)
    requires n > 0
    ensures forall i, j | 0 <= i <= j <= |Wrapped(s, n)| && j - i > n :: '\n' in Wrapped(s, n)[i..j]
    ensures forall i, j | 0 <= i <= j <= |Wrapped(s, n)| && '\n' !in Wrapped(s, n)[i..j] :: j - i <= n
  {
    var r := Wrapped(s, n);
    forall i, j | 0 <= i <= j <= |r| && j - i > n ensures '\n' in r[i..j] {
      var q, t := i / (n + 1), i % (n + 1);
      var k := i + (n - t);
      assert k == q * (n + 1) + n;
      DivModUnique(k, n + 1, q, n);
      WrappedAt(s, n, k);
      assert r[i..j][k - i] == r[k];
    }
  }

  /** For an input without newlines, the output's newlines are exactly the
      break slots: every line but the last holds exactly n characters. */
  lemma FullLines(s: seq<char>, n: nat)
    requires n > 0 && '\n' !in s
    ensures forall k | 0 <= k < |Wrapped(s, n)| :: Wrapped(s, n)[k] == '\n' <==> IsBreakSlot(k, n)
  {
    forall k | 0 <= k < |Wrapped(s, n)| ensures Wrapped(s, n)[k] == '\n' <==> IsBreakSlot(k, n) {
      WrappedAt(s, n, k);
    }
  }

  /** The output begins with the first input character and ends with the last:
      no break is put in front of the text or left dangling at its end. */
  lemma {:induction false} WrappedEnds(s: seq<char>, n: nat)
    requires n > 0 && |s| > 0
    ensures |Wrapped(s, n)| > 0
    ensures Wrapped(s, n)[0] == s[0]
    ensures Wrapped(s, n)[|Wrapped(s, n)| - 1] == s[|s| - 1]
    decreases |s|
  {
    if |s| > n {
      WrappedEnds(s[n..], n);
    }
  }

  lemma SlotSuccessor(k: nat, n: nat)
    requires n > 0 && IsBreakSlot(k, n)
    ensures !IsBreakSlot(k + 1, n)
    ensures SourceIndex(k + 1, n) == (k + 1) / (n + 1) * n
    ensures SourceIndex(k + 1, n) > 0 && SourceIndex(k + 1, n) % n == 0
  {
    var q := k / (n + 1);
    assert k == q * (n + 1) + n;
    assert k + 1 == (q + 1) * (n + 1) + 0;
    DivModUnique(k + 1, n + 1, q + 1, 0);
    assert SourceIndex(k + 1, n) == (q + 1) * n + 0;
    DivModUnique((q + 1) * n, n, q + 1, 0);
  }

  lemma LastNotSlot(s: seq<char>, n: nat)
    requires n > 0 && |s| > 0
    ensures !IsBreakSlot(WrappedLength(|s|, n) - 1, n)
  {
    var c := |s| - 1;
    var cq, ct := c / n, c % n;
    assert c == cq * n + ct;
    assert WrappedLength(|s|, n) - 1 == cq * (n + 1) + ct;
    DivModUnique(WrappedLength(|s|, n) - 1, n + 1, cq, ct);
  }

  /** Each break slot is followed by a character of the input, at an index that
      is a positive multiple of n: breaks go only before such characters. */
  lemma BreaksBeforeMultiples(s: seq<char>, n: nat)
    requires n > 0
    ensures forall k | 0 <= k < |Wrapped(s, n)| && IsBreakSlot(k, n) ::
              k + 1 < |Wrapped(s, n)| &&
              SourceIndex(k + 1, n) < |s| &&
              SourceIndex(k + 1, n) > 0 && SourceIndex(k + 1, n) % n == 0 &&
              Wrapped(s, n)[k + 1] == s[SourceIndex(k + 1, n)]
  {
    var r := Wrapped(s, n);
    WrappedLengthIs(s, n);
    forall k | 0 <= k < |r| && IsBreakSlot(k, n)
      ensures k + 1 < |r| && SourceIndex(k + 1, n) < |s|
      ensures SourceIndex(k + 1, n) > 0 && SourceIndex(k + 1, n) % n == 0
      ensures r[k + 1] == s[SourceIndex(k + 1, n)]
    {
      LastNotSlot(s, n);
      SlotSuccessor(k, n);
      WrappedAt(s, n, k + 1);
    }
  }
}
