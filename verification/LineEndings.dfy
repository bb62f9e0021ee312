/**
 Line endings of clipboard text (src/clipboard/formats.rs): Wayland wants LF, the RDP
 clipboard wants CRLF, and either may hand over CR, LF or CRLF.
 */
module LineEndings {

  /** How many characters the line ending at the front of `t` takes: CRLF is one ending. */
  function EndingLength(t: string): nat
    requires t != [] && t[0] == '\r'
  {
    if |t| > 1 && t[1] == '\n' then 2 else 1
  }

  /** Every line ending becomes LF. */
  function NormalizeLf(t: string): string {
    if t == [] then []
    else if t[0] == '\r' then ['\n'] + NormalizeLf(t[EndingLength(t)..])
    else [t[0]] + NormalizeLf(t[1..])
  }

  /** Every line ending becomes CRLF. */
  function ToCrlf(t: string): string {
    if t == [] then []
    else if t[0] == '\r' then "\r\n" + ToCrlf(t[EndingLength(t)..])
    else if t[0] == '\n' then "\r\n" + ToCrlf(t[1..])
    else [t[0]] + ToCrlf(t[1..])
  }

  /** What was written, what is about to be copied and what is left make up the result. */
  ghost predicate LfSoFar(text: string, out: string, start: nat, i: nat) {
    start <= i <= |text| && NormalizeLf(text) == (out + text[start..i]) + NormalizeLf(text[i..])
  }

  lemma LfPlain(text: string, out: string, start: nat, i: nat)
    requires LfSoFar(text, out, start, i) && i < |text| && text[i] != '\r'
    ensures LfSoFar(text, out, start, i + 1)
  {
    var tail := NormalizeLf(text[i + 1..]);
    assert text[i..][1..] == text[i + 1..];
    assert NormalizeLf(text[i..]) == [text[i]] + tail;
    assert out + text[start..i + 1] == (out + text[start..i]) + [text[i]];
  }

  lemma LfEnding(text: string, out: string, start: nat, i: nat)
    requires LfSoFar(text, out, start, i) && i < |text| && text[i] == '\r'
    ensures LfSoFar(text, out + text[start..i] + ['\n'], i + EndingLength(text[i..]), i + EndingLength(text[i..]))
  {
    var next := i + EndingLength(text[i..]);
    assert text[i..][EndingLength(text[i..])..] == text[next..];
    assert NormalizeLf(text[i..]) == ['\n'] + NormalizeLf(text[next..]);
    assert text[next..next] == [];
  }

  method NormalizeLfText(text: string) returns (out: string)
    ensures out == NormalizeLf(text)
  {
    out := [];
    var start, i := 0, 0;
    assert text[0..] == text;
    while i < |text|
      invariant LfSoFar(text, out, start, i)
      decreases |text| - i
    {
      if text[i] != '\r' {
        LfPlain(text, out, start, i);
        i := i + 1;
        continue;
      }
      LfEnding(text, out, start, i);
      out := out + text[start..i];
      out := out + ['\n'];
      i := i + (if i + 1 < |text| && text[i + 1] == '\n' then 1 else 0) + 1;
      start := i;
    }
    out := out + text[start..];
  }

  ghost predicate CrlfSoFar(text: string, out: string, start: nat, i: nat) {
    start <= i <= |text| && ToCrlf(text) == (out + text[start..i]) + ToCrlf(text[i..])
  }

  lemma CrlfPlain(text: string, out: string, start: nat, i: nat)
    requires CrlfSoFar(text, out, start, i) && i < |text| && text[i] != '\r' && text[i] != '\n'
    ensures CrlfSoFar(text, out, start, i + 1)
  {
    assert text[i..][1..] == text[i + 1..];
    assert ToCrlf(text[i..]) == [text[i]] + ToCrlf(text[i + 1..]);
    assert out + text[start..i + 1] == (out + text[start..i]) + [text[i]];
  }

  lemma CrlfEnding(text: string, out: string, start: nat, i: nat, next: nat)
    requires CrlfSoFar(text, out, start, i) && i < |text| && (text[i] == '\r' || text[i] == '\n')
    requires next == i + if text[i] == '\r' then EndingLength(text[i..]) else 1
    ensures CrlfSoFar(text, out + text[start..i] + "\r\n", next, next)
  {
    assert text[i..][next - i..] == text[next..];
    assert ToCrlf(text[i..]) == "\r\n" + ToCrlf(text[next..]);
    assert text[next..next] == [];
  }

  method ToCrlfText(text: string) returns (out: string)
    ensures out == ToCrlf(text)
  {
    out := [];
    var start, i := 0, 0;
    assert text[0..] == text;
    while i < |text|
      invariant CrlfSoFar(text, out, start, i)
      decreases |text| - i
    {
      if text[i] == '\r' {
        var next := i + (if i + 1 < |text| && text[i + 1] == '\n' then 1 else 0) + 1;
        CrlfEnding(text, out, start, i, next);
        out := out + text[start..i] + "\r\n";
        start, i := next, next;
      } else if text[i] == '\n' {
        CrlfEnding(text, out, start, i, i + 1);
        out := out + text[start..i] + "\r\n";
        start, i := i + 1, i + 1;
      } else {
        CrlfPlain(text, out, start, i);
        i := i + 1;
      }
    }
    out := out + text[start..];
  }

  /** Converting to CRLF loses nothing that the LF form keeps. */
  lemma {:induction false} LfOfCrlf(t: string)
    ensures NormalizeLf(ToCrlf(t)) == NormalizeLf(t)
    decreases |t|
  {
    if t == [] {
    } else {
      if t[0] == '\r' || t[0] == '\n' {
        var rest := if t[0] == '\r' then t[EndingLength(t)..] else t[1..];
        LfOfCrlf(rest);
        assert ToCrlf(t)[2..] == ToCrlf(rest);
      } else {
        LfOfCrlf(t[1..]);
        assert ToCrlf(t)[1..] == ToCrlf(t[1..]);
      }
    }
  }

  /** Nor does converting to LF. */
  lemma {:induction false} CrlfOfLf(t: string)
    ensures ToCrlf(NormalizeLf(t)) == ToCrlf(t)
    decreases |t|
  {
    if t == [] {
    } else {
      var rest := if t[0] == '\r' then t[EndingLength(t)..] else t[1..];
      CrlfOfLf(rest);
      assert NormalizeLf(t)[1..] == NormalizeLf(rest);
    }
  }

  lemma {:induction false} LfHasNoCr(t: string)
    ensures '\r' !in NormalizeLf(t)
    decreases |t|
  {
    if t == [] {
    } else {
      LfHasNoCr(if t[0] == '\r' then t[EndingLength(t)..] else t[1..]);
    }
  }

  lemma {:induction false} LfKeepsLf(t: string)
    requires '\r' !in t
    ensures NormalizeLf(t) == t
    decreases |t|
  {
    if t == [] {
    } else {
      LfKeepsLf(t[1..]);
    }
  }

  /** Text in Wayland form survives the trip to the client and back. */
  lemma RoundTrip(t: string)
    requires '\r' !in t
    ensures NormalizeLf(ToCrlf(t)) == t
  {
    LfOfCrlf(t);
    LfKeepsLf(t);
  }

  /** Two texts have the same CRLF form exactly when they have the same LF form. */
  lemma SameLinesEitherWay(a: string, b: string)
    ensures ToCrlf(a) == ToCrlf(b) <==> NormalizeLf(a) == NormalizeLf(b)
  {
    LfOfCrlf(a);
    LfOfCrlf(b);
    CrlfOfLf(a);
    CrlfOfLf(b);
  }

  /** A CR at `i` has its LF, and an LF at `i` its CR. */
  predicate PairedAt(t: string, i: nat)
    requires i < |t|
  {
    && (t[i] == '\r' ==> i + 1 < |t| && t[i + 1] == '\n')
    && (t[i] == '\n' ==> i > 0 && t[i - 1] == '\r')
  }

  /** In CRLF form, CR and LF occur only as the pair CRLF. */
  ghost predicate OnlyPairs(t: string) {
    forall i :: 0 <= i < |t| ==> PairedAt(t, i)
  }

  lemma PairsAfter(head: string, rest: string)
    requires OnlyPairs(rest)
    requires head == "\r\n" || (|head| == 1 && head[0] != '\r' && head[0] != '\n')
    ensures OnlyPairs(head + rest)
  {
    var t := head + rest;
    forall i | 0 <= i < |t|
      ensures PairedAt(t, i)
    {
      if i >= |head| {
        assert PairedAt(rest, i - |head|);
      }
    }
  }

  lemma {:induction false} CrlfOnlyPairs(t: string)
    ensures OnlyPairs(ToCrlf(t))
    decreases |t|
  {
    if t == [] {
    } else {
      var rest := if t[0] == '\r' then t[EndingLength(t)..] else t[1..];
      CrlfOnlyPairs(rest);
      PairsAfter(if t[0] == '\r' || t[0] == '\n' then "\r\n" else [t[0]], ToCrlf(rest));
    }
  }
}
