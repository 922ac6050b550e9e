/** EVP_DecodeUpdate and EVP_DecodeFinal (crypto/base64/base64.c). */
module Base64Reader {
  import opened Bytes
  import opened Base64
  import opened Base64Stream

  // ---------------------------------------------------------------- one character at a time

  /** The variables of the loop: the characters held in enc_data, the length of the current line, whether a
      line end is due, the least length of a line so far, whether '=' was seen, how many bytes to chop off, and
      the bytes written. */
  datatype State = State(d: seq<Byte>, ln: nat, expNl: bool, length: nat, seen: bool, eof: nat, out: seq<Byte>)

  /** Stop leaves the loop with the return value. */
  datatype Verdict = Go | Stop(rv: int)

  /** Character number k from the end of the buffer. With fewer characters in it the code looks at bytes that
      are not part of it, whose values are a parameter. */
  function Peek(d: seq<Byte>, k: nat, stray: Byte): Byte
    requires k > 0
  {
    if k <= |d| then d[|d| - k] else stray
  }

  function Recount(d: seq<Byte>, stray: Byte): nat {
    (if Peek(d, 1, stray) == EQUALS then 1 else 0) + (if Peek(d, 2, stray) == EQUALS then 1 else 0)
  }

  /** A character is kept unless it is white space, a line end or '-'. */
  function Keep(s: State, c: Byte): State {
    var kept := if NotBase64(FromAscii(c)) then s else s.(d := s.d + [c], ln := s.ln + 1);
    if c == EQUALS then kept.(seen := true, eof := kept.eof + 1) else kept
  }

  /** Decoding what is held. */
  function Flush(s: State, v: Byte): (Verdict, State) {
    var t := s.(d := [], expNl := s.expNl || (v != EOF && |s.d| >= 64));
    if s.d == [] then Measure(t, 0, 1)
    else
      match DecodedBlock(s.d)
      case None => (Stop(0), t)
      case Some(r) =>
        if s.eof > |r| then (Stop(-1), t)
        else Measure(t.(out := s.out + r[..|r| - s.eof]), |r|, s.eof)
  }

  /** A short padded line, or any line with '=', is the last one. */
  function Measure(s: State, v: nat, eof: nat): (Verdict, State) {
    if v < s.length && eof > 0 then (Stop(0), s.(eof := eof))
    else if s.seen then (Stop(0), s.(eof := eof, length := v))
    else (Go, s.(eof := eof, length := v))
  }

  /** At the end of the input a whole group, or one with '=', counts as a line. */
  function Finish(t: State, v: Byte, last: bool, stray: Byte): (Verdict, State) {
    var closing := last && (|t.d| % 4 == 0 || t.eof > 0);
    var u := if closing then t.(eof := Recount(t.d, stray)) else t;
    if ((closing || v == EOF) && |u.d| % 4 == 0) || |u.d| >= 64 then Flush(u, if closing then EOF else v)
    else (Go, u)
  }

  function Step(s: State, c: Byte, last: bool, stray: Byte): (Verdict, State) {
    if s.ln >= 80 then (Stop(-1), s)
    else
      var v, k := FromAscii(c), Keep(s, c);
      if c == EQUALS && k.eof > 2 then (Stop(-1), k)
      else if v == CR && k.expNl then (Go, k.(ln := 0))
      else if v == EOLN && k.expNl then (Go, k.(ln := 0, expNl := false))
      else
        Finish(k.(ln := if v == CR || v == EOLN then 0 else k.ln, expNl := false), v, last, stray)
  }

  function Run(s: State, x: seq<Byte>, i: nat, stray: Byte): (int, State)
    requires i <= |x|
    decreases |x| - i
  {
    if i == |x| then (1, s)
    else
      match Step(s, x[i], i + 1 == |x|, stray)
      case (Stop(rv), t) => (rv, t)
      case (Go, t) => Run(t, x, i + 1, stray)
  }

  lemma RunUnfolds(s: State, x: seq<Byte>, i: nat, stray: Byte)
    requires i < |x|
    ensures var (verdict, t) := Step(s, x[i], i + 1 == |x|, stray);
            Run(s, x, i, stray) == if verdict.Go? then Run(t, x, i + 1, stray) else (verdict.rv, t)
  {
  }

  // ---------------------------------------------------------------- the code

  class DecodeCtx {
    var num: nat
    var length: nat
    var encData: array<Byte>
    var lineNum: nat
    var expectNl: bool

    /** EVP_DecodeInit. */
    constructor ()
      ensures Valid() && Held(false, 0, []) == State([], 0, false, 30, false, 0, []) && fresh(encData)
    {
      length, num, lineNum, expectNl := 30, 0, 0, false;
      encData := new Byte[80];
    }

    /** A context that has not failed holds less than a line. */
    ghost predicate Valid()
      reads this
    {
      encData.Length == 80 && num < 64
    }

    /** The loop's variables. The code keeps copies of the fields and writes them back on every exit. */
    ghost function Held(seen: bool, eof: nat, out: seq<Byte>): State
      requires num <= encData.Length
      reads this, encData
    {
      State(encData[..num], lineNum, expectNl, length, seen, eof, out)
    }

    /** The part of the loop body that stores the character. */
    method Store(c: Byte, seen: bool, eof: nat, ghost out: seq<Byte>) returns (seen': bool, eof': nat)
      requires Valid()
      modifies this`num, this`lineNum, encData
      ensures encData.Length == 80 && num <= 64 && num <= old(num) + 1
      ensures NotBase64(FromAscii(c)) ==> num == old(num)
      ensures Held(seen', eof', out) == Keep(old(Held(seen, eof, out)), c)
    {
      seen', eof' := seen, eof;
      if !NotBase64(FromAscii(c)) {
        encData[num] := c;
        num := num + 1;
        lineNum := lineNum + 1;
      }
      if c == EQUALS {
        if !seen' {
          seen' := true;
        }
        eof' := eof' + 1;
      }
    }

    /** The part that decodes a line. */
    method FlushLine(v: Byte, seen: bool, eof: nat, out: seq<Byte>)
      returns (verdict: Verdict, eof': nat, out': seq<Byte>)
      requires encData.Length == 80 && num <= 64
      modifies this`num, this`length, this`expectNl
      ensures num == 0 && (verdict, Held(seen, eof', out')) == Flush(old(Held(seen, eof, out)), v)
    {
      hide FromAscii, DecodedBlock;
      eof', out' := eof, out;
      var w := 0;
      if v != EOF && num >= 64 {
        expectNl := true;
      }
      if num > 0 {
        var r := DecodeBlock(encData[..num]);
        num := 0;
        if r.None? {
          return Stop(0), eof', out';
        }
        if eof > |r.value| {
          return Stop(-1), eof', out';
        }
        out' := out + r.value[..|r.value| - eof];
        w := |r.value|;
      } else {
        eof' := 1;
      }
      if w < length && eof' > 0 {
        return Stop(0), eof', out';
      }
      length := w;
      if seen {
        return Stop(0), eof', out';
      }
      verdict := Go;
    }

    /** The end of the loop body: whether a line is complete. */
    method Close(v0: Byte, last: bool, seen: bool, eof: nat, out: seq<Byte>, stray: Byte)
      returns (verdict: Verdict, eof': nat, out': seq<Byte>)
      requires encData.Length == 80 && num <= 64
      modifies this`num, this`length, this`expectNl
      ensures num <= 64 && (verdict.Go? ==> num < 64)
      ensures (verdict, Held(seen, eof', out')) == Finish(old(Held(seen, eof, out)), v0, last, stray)
    {
      hide Flush;
      var v := v0;
      eof', out' := eof, out;
      if last && (num % 4 == 0 || eof' > 0) {
        v := EOF;
        eof' := 0;
        var d1 := if num >= 1 then encData[num - 1] else stray;
        var d2 := if num >= 2 then encData[num - 2] else stray;
        if d1 == EQUALS {
          eof' := eof' + 1;
        }
        if d2 == EQUALS {
          eof' := eof' + 1;
        }
      }
      verdict := Go;
      if (v == EOF && num % 4 == 0) || num >= 64 {
        verdict, eof', out' := FlushLine(v, seen, eof', out');
      }
    }

    /** One round of the loop. */
    method Feed(c: Byte, last: bool, seen: bool, eof: nat, out: seq<Byte>, stray: Byte)
      returns (verdict: Verdict, seen': bool, eof': nat, out': seq<Byte>)
      requires Valid()
      modifies this`num, this`lineNum, this`expectNl, this`length, encData
      ensures encData.Length == 80 && num <= 64 && (verdict.Go? ==> num < 64)
      ensures (verdict, Held(seen', eof', out')) == Step(old(Held(seen, eof, out)), c, last, stray)
    {
      hide FromAscii, Finish, Keep;
      seen', eof', out' := seen, eof, out;
      if lineNum >= 80 {
        return Stop(-1), seen', eof', out';
      }
      var v := FromAscii(c);
      ghost var k := Keep(Held(seen, eof, out), c);
      seen', eof' := Store(c, seen, eof, out);
      KeepFields(old(Held(seen, eof, out)), c);
      if c == EQUALS && eof' > 2 {
        return Stop(-1), seen', eof', out';
      }
      if v == CR {
        lineNum := 0;
        if expectNl {
          return Go, seen', eof', out';
        }
      }
      if v == EOLN {
        lineNum := 0;
        if expectNl {
          expectNl := false;
          return Go, seen', eof', out';
        }
      }
      expectNl := false;
      verdict, eof', out' := Close(v, last, seen', eof', out', stray);
    }

    /** EVP_DecodeUpdate. */
    method Update(x: seq<Byte>, stray: Byte) returns (rv: int, out: seq<Byte>)
      requires Valid()
      modifies this`num, this`lineNum, this`expectNl, this`length, encData
      ensures encData.Length == 80 && num <= 64
      ensures x == [] || (old(num) == 0 && FromAscii(x[0]) == EOF) ==>
                rv == 0 && out == [] && Held(false, 0, []) == old(Held(false, 0, []))
      ensures x != [] && !(old(num) == 0 && FromAscii(x[0]) == EOF) ==>
                exists seen, eof :: (rv, Held(seen, eof, out)) == Run(old(Held(false, 0, [])), x, 0, stray)
    {
      hide FromAscii, Step;
      out := [];
      if |x| == 0 || (num == 0 && FromAscii(x[0]) == EOF) {
        return 0, [];
      }
      var seen, eof := false, 0;
      var i := 0;
      while i < |x|
        invariant 0 <= i <= |x| && Valid() && 0 <= eof
        invariant Run(old(Held(false, 0, [])), x, 0, stray) == Run(Held(seen, eof, out), x, i, stray)
      {
        RunUnfolds(Held(seen, eof, out), x, i, stray);
        var verdict;
        verdict, seen, eof, out := Feed(x[i], i + 1 == |x|, seen, eof, out, stray);
        if verdict.Stop? {
          assert (verdict.rv, Held(seen, eof, out)) == Run(old(Held(false, 0, [])), x, 0, stray);
          return verdict.rv, out;
        }
        i := i + 1;
      }
      assert (1, Held(seen, eof, out)) == Run(old(Held(false, 0, [])), x, 0, stray);
      rv := 1;
    }

    /** EVP_DecodeFinal. */
    method Final() returns (rv: int, out: seq<Byte>)
      requires encData.Length == 80 && num <= 80
      modifies this`num
      ensures old(num) == 0 ==> rv == 1 && out == []
      ensures old(num) > 0 ==> var r := DecodedBlock(old(encData[..num]));
                               (rv, out) == if r.None? then (-1, []) else (1, r.value)
    {
      if num != 0 {
        var r := DecodeBlock(encData[..num]);
        if r.None? {
          return -1, [];
        }
        num := 0;
        return 1, r.value;
      }
      return 1, [];
    }
  }

  lemma KeepFields(s: State, c: Byte)
    ensures var k := Keep(s, c); k.expNl == s.expNl && k.length == s.length && k.out == s.out
  {
  }

  // ---------------------------------------------------------------- decoding an encoded text

  /** At the start of a line, n bytes having been decoded before. */
  predicate LineStart(s: State) {
    s.d == [] && s.ln == 0 && !s.expNl && !s.seen && s.eof == 0 && s.length <= LINE
  }

  /** Plain characters that neither fill the line nor end the input are kept. */
  lemma {:induction false} KeepsPlain(s: State, x: seq<Byte>, i: nat, n: nat, stray: Byte)
    requires i + n < |x| && |s.d| + n < 64 && s.ln + n < 80 && !s.expNl
    requires forall k :: i <= k < i + n ==> Plain(x[k]) && x[k] != EQUALS
    ensures Run(s, x, i, stray) == Run(s.(d := s.d + x[i..i + n], ln := s.ln + n), x, i + n, stray)
    decreases n
  {
    hide FromAscii, Run;
    if n == 0 {
      assert s.d + x[i..i] == s.d;
    } else {
      var t := s.(d := s.d + [x[i]], ln := s.ln + 1);
      RunUnfolds(s, x, i, stray);
      assert Plain(x[i]);
      PlainStep(s, x[i], stray);
      KeepsPlain(t, x, i + 1, n - 1, stray);
      assert s.d + [x[i]] + x[i + 1..i + n] == s.d + x[i..i + n];
    }
  }

  lemma PlainStep(s: State, c: Byte, stray: Byte)
    requires Plain(c) && c != EQUALS && |s.d| + 1 < 64 && s.ln < 80 && !s.expNl
    ensures Step(s, c, false, stray) == (Go, s.(d := s.d + [c], ln := s.ln + 1))
  {
  }

  lemma EqualsStep(s: State, stray: Byte)
    requires |s.d| + 1 < 64 && s.ln < 80 && !s.expNl && s.eof < 2
    ensures Step(s, EQUALS, false, stray) ==
            (Go, s.(d := s.d + [EQUALS], ln := s.ln + 1, seen := true, eof := s.eof + 1))
  {
    SpecialCharacters();
  }

  /** A whole line of a text whose last newline ends the input: plain characters and up to two '='. */
  lemma KeepsBlock(s: State, x: seq<Byte>, i: nat, chunk: seq<Byte>, n: nat, stray: Byte)
    requires LineStart(s) && chunk != [] && i + |Block(chunk)| < |x| && x[i..i + |Block(chunk)|] == Block(chunk)
    requires n <= |Block(chunk)| && n < 64
    ensures var pad := n - (|Block(chunk)| - Missing(|chunk|));
            Run(s, x, i, stray) ==
            Run(s.(d := Block(chunk)[..n], ln := n, seen := pad > 0, eof := if pad > 0 then pad else 0), x, i + n, stray)
  {
    hide FromAscii, Run, Block, Step, Missing;
    BlockShape(chunk);
    var b := Block(chunk);
    var m := |b| - Missing(|chunk|);
    assert forall k :: 0 <= k < |b| ==> x[i + k] == b[k];
    var plain := if n < m then n else m;
    KeepsFront(s, x, i, b, plain, Missing(|chunk|), stray);
    var t := s.(d := b[..plain], ln := plain);
    if n > m {
      KeepsEquals(t, b, x, i, m, stray);
      if n > m + 1 {
        KeepsEquals(t.(d := b[..m + 1], ln := m + 1, seen := true, eof := 1), b, x, i, m + 1, stray);
      }
    }
  }

  lemma KeepsFront(s: State, x: seq<Byte>, i: nat, b: seq<Byte>, plain: nat, pad: nat, stray: Byte)
    requires LineStart(s) && Shaped(b, pad) && i + |b| < |x| && x[i..i + |b|] == b && plain <= |b| - pad && plain < 64
    ensures Run(s, x, i, stray) == Run(s.(d := b[..plain], ln := plain), x, i + plain, stray)
  {
    hide FromAscii, Run;
    forall k | i <= k < i + plain ensures Plain(x[k]) && x[k] != EQUALS {
      assert x[k] == x[i..i + |b|][k - i] == b[k - i];
    }
    KeepsPlain(s, x, i, plain, stray);
    assert x[i..i + plain] == x[i..i + |b|][..plain] == b[..plain] && s.d + x[i..i + plain] == b[..plain];
  }

  lemma KeepsEquals(t: State, b: seq<Byte>, x: seq<Byte>, i: nat, k: nat, stray: Byte)
    requires k < |b| && k + 1 < 64 && i + k + 1 < |x| && x[i + k] == b[k] == EQUALS
    requires t.d == b[..k] && t.ln == k && !t.expNl && t.eof < 2
    ensures Run(t, x, i + k, stray) ==
            Run(t.(d := b[..k + 1], ln := k + 1, seen := true, eof := t.eof + 1), x, i + k + 1, stray)
  {
    hide Run, Step;
    RunUnfolds(t, x, i + k, stray);
    EqualsStep(t, stray);
    assert b[..k] + [b[k]] == b[..k + 1];
  }

  lemma FlushDecoded(u: State, v: Byte, chunk: seq<Byte>, z: seq<Byte>, m: nat)
    requires u.d != [] && DecodedBlock(u.d) == Some(chunk + z) && u.eof == |z| == m
    ensures Flush(u, v) == Measure(u.(d := [], expNl := u.expNl || (v != EOF && |u.d| >= 64), out := u.out + chunk),
                                   |chunk| + m, u.eof)
  {
    hide DecodedBlock, Measure;
    assert (chunk + z)[..|chunk + z| - u.eof] == chunk;
  }

  lemma RecountPadding(chunk: seq<Byte>, d: seq<Byte>, stray: Byte)
    requires chunk != [] && d == Block(chunk)
    ensures Recount(d, stray) == Missing(|chunk|)
    ensures |d| % 4 == 0 && d != []
  {
    hide Block, FromAscii, Missing;
    BlockShape(chunk);
    Fours(|chunk|);
  }

  lemma Fours(n: nat)
    ensures (n + 2) / 3 * 4 % 4 == 0
  {
  }

  /** The 64th character completes a line. */
  lemma LineFills(s: State, chunk: seq<Byte>, eof: nat, stray: Byte)
    requires LineStart(s) && 46 <= |chunk| <= 48
    requires var pad := Missing(|chunk|); eof == if pad > 0 then pad - 1 else 0
    ensures var b, pad := Block(chunk), Missing(|chunk|);
            var t := s.(d := b[..63], ln := 63, seen := eof > 0, eof := eof);
            Step(t, b[63], false, stray) ==
            Measure(s.(d := [], ln := 64, seen := pad > 0, eof := pad, expNl := true, out := s.out + chunk), 48, pad)
  {
    hide Block, Step, Measure, Missing, Zeros;
    var b, pad := Block(chunk), Missing(|chunk|);
    LastOfLine(chunk, b);
    EncodedBlockDecodes(chunk, b);
    LineFull(s, b, pad, chunk, Zeros(pad), eof, stray);
    assert 48 == |chunk| + pad;
  }

  lemma LastOfLine(chunk: seq<Byte>, b: seq<Byte>)
    requires 46 <= |chunk| <= 48 && b == Block(chunk)
    ensures |b| == 64 && |chunk| + Missing(|chunk|) == 48
    ensures if Missing(|chunk|) == 0 then Plain(b[63]) && b[63] != EQUALS else b[63] == EQUALS
  {
    hide Block, FromAscii;
    BlockShape(chunk);
    LineLength(|chunk|);
  }

  lemma LineLength(n: nat)
    requires 46 <= n <= 48
    ensures (n + 2) / 3 * 4 == 64 && n + Missing(n) == 48
  {
  }

  lemma LineFull(s: State, b: seq<Byte>, pad: nat, chunk: seq<Byte>, z: seq<Byte>, eof: nat, stray: Byte)
    requires LineStart(s) && |b| == 64 && pad < 3 && eof == (if pad > 0 then pad - 1 else 0) && |z| == pad
    requires if pad == 0 then Plain(b[63]) && b[63] != EQUALS else b[63] == EQUALS
    requires DecodedBlock(b) == Some(chunk + z)
    ensures Step(s.(d := b[..63], ln := 63, seen := eof > 0, eof := eof), b[63], false, stray) ==
            Measure(s.(d := [], ln := 64, seen := pad > 0, eof := pad, expNl := true, out := s.out + chunk),
                    |chunk| + pad, pad)
  {
    hide Flush, Measure, FromAscii, DecodedBlock;
    SpecialCharacters();
    assert b[..63] + [b[63]] == b;
    var u := s.(d := b, ln := 64, seen := pad > 0, eof := pad);
    FlushDecoded(u, FromAscii(b[63]), chunk, z, pad);
  }

  lemma FullLine(s: State, x: seq<Byte>, i: nat, chunk: seq<Byte>, stray: Byte)
    requires LineStart(s) && |chunk| == LINE && i + 64 < |x|
    requires x[i..i + 64] == Block(chunk) && x[i + 64] == NEWLINE
    ensures LineStart(s.(length := LINE, out := s.out + chunk))
    ensures Run(s, x, i, stray) == Run(s.(length := LINE, out := s.out + chunk), x, i + 65, stray)
  {
    hide Run, Block, Step;
    var b := Block(chunk);
    KeepsBlock(s, x, i, chunk, 63, stray);
    var t := s.(d := b[..63], ln := 63, seen := false, eof := 0);
    assert t == s.(d := b[..63], ln := 63);
    assert x[i + 63] == x[i..i + 64][63] == b[63];
    LineFills(s, chunk, 0, stray);
    RunUnfolds(t, x, i + 63, stray);
    var f := s.(ln := 64, expNl := true, length := LINE, out := s.out + chunk);
    RunUnfolds(f, x, i + 64, stray);
    NewlineDue(f, i + 65 == |x|, stray);
  }

  lemma NewlineDue(f: State, last: bool, stray: Byte)
    requires f.ln < 80 && f.expNl
    ensures Step(f, NEWLINE, last, stray) == (Go, f.(ln := 0, expNl := false))
  {
  }

  lemma PaddedFullLine(s: State, x: seq<Byte>, i: nat, chunk: seq<Byte>, stray: Byte)
    requires LineStart(s) && 46 <= |chunk| < LINE && i + 64 < |x| && x[i..i + 64] == Block(chunk)
    ensures var (rv, t) := Run(s, x, i, stray); rv == 0 && t.d == [] && t.out == s.out + chunk
  {
    hide Run, Block, Step;
    var b, pad := Block(chunk), Missing(|chunk|);
    KeepsBlock(s, x, i, chunk, 63, stray);
    var t := s.(d := b[..63], ln := 63, seen := pad > 1, eof := pad - 1);
    assert x[i + 63] == x[i..i + 64][63] == b[63];
    LineFills(s, chunk, pad - 1, stray);
    RunUnfolds(t, x, i + 63, stray);
  }

  lemma ShortLine(s: State, x: seq<Byte>, i: nat, chunk: seq<Byte>, stray: Byte)
    requires LineStart(s) && 0 < |chunk| <= 45 && i <= |x| && x[i..] == Block(chunk) + [NEWLINE]
    ensures var (rv, t) := Run(s, x, i, stray); (rv == 0 || rv == 1) && t.d == [] && t.out == s.out + chunk
  {
    hide Run, Block, Step, Missing;
    var b, pad := Block(chunk), Missing(|chunk|);
    var n := |b|;
    assert x[i..i + n] == x[i..][..n] == b && x[i + n] == x[i..][n] == NEWLINE;
    RecountPadding(chunk, b, stray);
    KeepsBlock(s, x, i, chunk, n, stray);
    assert b[..n] == b;
    var t := s.(d := b, ln := n, seen := pad > 0, eof := pad);
    EndOfShortLine(t, x, i + n, chunk, stray);
  }

  lemma EndOfShortLine(t: State, x: seq<Byte>, i: nat, chunk: seq<Byte>, stray: Byte)
    requires 0 < |chunk| <= 45 && t.d == Block(chunk) && t.eof == Missing(|chunk|) && !t.expNl && t.ln < 80
    requires i + 1 == |x| && x[i] == NEWLINE
    ensures var (rv, u) := Run(t, x, i, stray); (rv == 0 || rv == 1) && u.d == [] && u.out == t.out + chunk
  {
    hide Run, Block, Step, Missing;
    RunUnfolds(t, x, i, stray);
    LineEnds(t, chunk, stray);
    var (verdict, u) := Step(t, NEWLINE, true, stray);
    if verdict.Go? {
      RunEnds(u, x, stray);
    }
  }

  lemma RunEnds(u: State, x: seq<Byte>, stray: Byte)
    ensures Run(u, x, |x|, stray) == (1, u)
  {
  }

  lemma LineEnds(t: State, chunk: seq<Byte>, stray: Byte)
    requires 0 < |chunk| <= 45 && t.d == Block(chunk) && t.eof == Missing(|chunk|) && !t.expNl && t.ln < 80
    ensures var (verdict, u) := Step(t, NEWLINE, true, stray);
            (verdict == Go || verdict == Stop(0)) && u.d == [] && u.out == t.out + chunk
  {
    hide Block, Flush, FromAscii, Recount, Missing;
    SpecialCharacters();
    RecountPadding(chunk, t.d, stray);
    EncodedBlockDecodes(chunk, t.d);
    FlushDecoded(t.(ln := 0), EOF, chunk, Zeros(Missing(|chunk|)), Missing(|chunk|));
  }

  /** Lines come back one by one. */
  lemma {:induction false} LinesDecode(s: State, x: seq<Byte>, i: nat, y: seq<Byte>, stray: Byte)
    requires LineStart(s) && i <= |x| && x[i..] == Lines(y)
    ensures var (rv, t) := Run(s, x, i, stray); (rv == 0 || rv == 1) && t.d == [] && t.out == s.out + y
    decreases |y|
  {
    hide Run, Block;
    if y == [] {
      RunEnds(s, x, stray);
      assert s.out + [] == s.out;
    } else if |y| <= 45 {
      ShortLine(s, x, i, y, stray);
    } else if |y| < LINE {
      assert x[i..i + 64] == x[i..][..64] == Block(y);
      PaddedFullLine(s, x, i, y, stray);
    } else {
      var chunk, rest := y[..LINE], y[LINE..];
      if |y| == LINE {
        assert chunk == y && rest == [];
      }
      assert Lines(y) == Block(chunk) + [NEWLINE] + Lines(rest);
      assert x[i..i + 64] == x[i..][..64] == Block(chunk) && x[i + 64] == x[i..][64] == NEWLINE;
      FullLine(s, x, i, chunk, stray);
      assert x[i + 65..] == x[i..][65..] == Lines(rest);
      LinesDecode(s.(length := LINE, out := s.out + chunk), x, i + 65, rest, stray);
      assert s.out + chunk + rest == s.out + y;
    }
  }

  // ---------------------------------------------------------------- characters outside the alphabet

  /** The characters kept from position i on until the loop decodes, n being held before, and whether it does
      decode before the input ends: at the 64th character, at a '-' or at the last character behind whole groups. */
  function Gathered(x: seq<Byte>, i: nat, n: nat): (seq<Byte>, bool)
    requires i <= |x|
    decreases |x| - i
  {
    if i == |x| then ([], n % 4 == 0)
    else if NotBase64(FromAscii(x[i])) then
      if FromAscii(x[i]) == EOF && n % 4 == 0 then ([], true) else Gathered(x, i + 1, n)
    else if n >= 63 then ([x[i]], true)
    else
      var (w, full) := Gathered(x, i + 1, n + 1);
      ([x[i]] + w, full)
  }

  function EqualSigns(s: seq<Byte>): nat {
    if s == [] then 0 else EqualSigns(s[..|s| - 1]) + (if s[|s| - 1] == EQUALS then 1 else 0)
  }

  lemma EqualSignsSnoc(s: seq<Byte>, c: Byte)
    ensures EqualSigns(s + [c]) == EqualSigns(s) + (if c == EQUALS then 1 else 0)
  {
    assert (s + [c])[..|s|] == s;
  }

  lemma {:induction false} EqualSignsMore(s: seq<Byte>, w: seq<Byte>)
    ensures EqualSigns(s) <= EqualSigns(s + w)
    decreases |w|
  {
    if w == [] {
      assert s + w == s;
    } else {
      var n := |w| - 1;
      EqualSignsMore(s, w[..n]);
      assert s + w == (s + w[..n]) + [w[n]];
      EqualSignsSnoc(s + w[..n], w[n]);
    }
  }

  /** Inside a line: what is held since the line began. */
  predicate Holding(s: State) {
    |s.d| < 64 && s.ln <= |s.d| && !s.expNl && AllKept(s.d) && s.eof == EqualSigns(s.d) <= 2
  }

  lemma FlushBad(u: State, v: Byte)
    requires AllKept(u.d) && HasBad(u.d)
    ensures var (verdict, t) := Flush(u, v); verdict == Stop(0) && t.d == [] && t.out == u.out
  {
    hide FromAscii, DecodedBlock, Measure;
    BadBlock(u.d);
  }

  lemma SkippedStep(s: State, c: Byte, last: bool, stray: Byte)
    requires Holding(s) && NotBase64(FromAscii(c))
    ensures var (verdict, t) := Step(s, c, last, stray);
            if (last || FromAscii(c) == EOF) && |s.d| % 4 == 0
            then HasBad(s.d) ==> verdict == Stop(0) && t.d == [] && t.out == s.out
            else verdict == Go && t.d == s.d && t.out == s.out && (!last ==> Holding(t))
  {
    hide Flush, AllKept, HasBad, EqualSigns, Recount;
    SpecialCharacters();
    var v := FromAscii(c);
    var k := s.(ln := if v == CR || v == EOLN then 0 else s.ln);
    assert Keep(s, c) == s;
    assert Step(s, c, last, stray) == Finish(k.(expNl := false), v, last, stray);
    if HasBad(s.d) {
      FlushBad(k.(eof := Recount(s.d, stray)), EOF);
      FlushBad(k, v);
    }
  }

  lemma KeptStep(s: State, c: Byte, last: bool, stray: Byte)
    requires Holding(s) && !NotBase64(FromAscii(c))
    ensures var (verdict, t) := Step(s, c, last, stray);
            var d := s.d + [c];
            if EqualSigns(d) > 2 then verdict == Stop(-1) && t.out == s.out
            else if |d| == 64 || (last && |d| % 4 == 0)
            then HasBad(d) ==> verdict == Stop(0) && t.d == [] && t.out == s.out
            else verdict == Go && t.d == d && t.out == s.out && (!last ==> Holding(t))
  {
    hide Flush, HasBad, EqualSigns, Recount, FromAscii;
    SpecialCharacters();
    var v, k := FromAscii(c), Keep(s, c);
    EqualSignsSnoc(s.d, c);
    assert AllKept(k.d);
    if k.eof <= 2 {
      assert Step(s, c, last, stray) == Finish(k, v, last, stray);
      if HasBad(k.d) {
        FlushBad(k.(eof := Recount(k.d, stray)), EOF);
        FlushBad(k, v);
      }
    }
  }

  /** The whole run from inside a line in which a character stands outside the alphabet: nothing more is written.
      A third '=' before the line is decoded yields -1; the decoding of the line yields 0, as if the input had
      ended, with nothing held; and when the input ends before, all of it is held. */
  lemma {:induction false} BadRun(s: State, x: seq<Byte>, i: nat, stray: Byte)
    requires i < |x| && Holding(s) && HasBad(s.d + Gathered(x, i, |s.d|).0)
    ensures var (w, full) := Gathered(x, i, |s.d|);
            var (rv, t) := Run(s, x, i, stray);
            && t.out == s.out
            && rv == (if EqualSigns(s.d + w) > 2 then -1 else if full then 0 else 1)
            && (rv == 0 ==> t.d == []) && (rv == 1 ==> t.d == s.d + w)
    decreases |x| - i
  {
    hide Run, Step, Holding, HasBad, EqualSigns, FromAscii, Gathered;
    var (w, full) := Gathered(x, i, |s.d|);
    var last := i + 1 == |x|;
    var (verdict, t) := Step(s, x[i], last, stray);
    RunUnfolds(s, x, i, stray);
    AtMostTwo(s);
    GatheredUnfolds(x, i, |s.d|);
    if NotBase64(FromAscii(x[i])) {
      SkippedStep(s, x[i], last, stray);
      assert s.d + [] == s.d;
      if last || verdict.Stop? {
        RunEnds(t, x, stray);
      } else {
        BadRun(t, x, i + 1, stray);
      }
    } else {
      var d := s.d + [x[i]];
      KeptStep(s, x[i], last, stray);
      EqualSignsMore(d, w[1..]);
      assert s.d + w == d + w[1..];
      if last || verdict.Stop? {
        assert d + [] == d;
        RunEnds(t, x, stray);
      } else {
        BadRun(t, x, i + 1, stray);
      }
    }
  }

  lemma GatheredUnfolds(x: seq<Byte>, i: nat, n: nat)
    requires i < |x|
    ensures Gathered(x, i, n) ==
            if NotBase64(FromAscii(x[i])) then
              if FromAscii(x[i]) == EOF && n % 4 == 0 then ([], true)
              else if i + 1 == |x| then ([], n % 4 == 0)
              else Gathered(x, i + 1, n)
            else if n >= 63 then ([x[i]], true)
            else if i + 1 == |x| then ([x[i]], (n + 1) % 4 == 0)
            else ([x[i]] + Gathered(x, i + 1, n + 1).0, Gathered(x, i + 1, n + 1).1)
    ensures !NotBase64(FromAscii(x[i])) ==> |Gathered(x, i, n).0| > 0
  {
    hide FromAscii;
    assert [x[i]] + [] == [x[i]];
  }

  lemma AtMostTwo(s: State)
    requires Holding(s)
    ensures |s.d| < 64 && EqualSigns(s.d) <= 2
  {
  }

  lemma {:induction false} GatheredKept(x: seq<Byte>, i: nat, n: nat)
    requires i <= |x|
    ensures AllKept(Gathered(x, i, n).0)
    decreases |x| - i
  {
    hide FromAscii;
    if i < |x| && !(NotBase64(FromAscii(x[i])) && FromAscii(x[i]) == EOF && n % 4 == 0) {
      GatheredKept(x, i + 1, if NotBase64(FromAscii(x[i])) then n else n + 1);
    }
  }

  /** A text that goes wrong behind any number of complete lines: those lines are decoded and nothing behind them.
      The run reports -1 for a third '='. It reports 0, as at the proper end of the input, when the bad line is
      decoded, and then holds nothing that would make the end fail. Only a line that is still incomplete when the
      input ends is refused, by the end. */
  lemma {:induction false} BadText(s: State, x: seq<Byte>, i: nat, y: seq<Byte>, stray: Byte)
    requires LineStart(s) && |y| % LINE == 0 && i + |Lines(y)| < |x| && Lines(y) <= x[i..]
    requires HasBad(Gathered(x, i + |Lines(y)|, 0).0)
    ensures var (w, full) := Gathered(x, i + |Lines(y)|, 0);
            var (rv, t) := Run(s, x, i, stray);
            && t.out == s.out + y
            && rv == (if EqualSigns(w) > 2 then -1 else if full then 0 else 1)
            && (rv == 0 ==> t.d == []) && (rv == 1 ==> t.d == w && DecodedBlock(w) == None)
    decreases |y|
  {
    hide Run, Block, HasBad, FromAscii, AllKept, DecodedBlock;
    if y == [] {
      var w := Gathered(x, i, 0).0;
      assert s.d + w == w && s.out + y == s.out;
      assert Holding(s) by {
        NothingBad();
      }
      BadRun(s, x, i, stray);
      GatheredKept(x, i, 0);
      BadBlock(w);
    } else {
      var chunk, rest := y[..LINE], y[LINE..];
      LinesHead(y);
      var u := x[i..];
      assert x[i..i + 64] == u[..64] == Block(chunk) && x[i + 64] == u[64] == NEWLINE;
      FullLine(s, x, i, chunk, stray);
      assert x[i + 65..] == u[65..];
      BadText(s.(length := LINE, out := s.out + chunk), x, i + 65, rest, stray);
      assert s.out + chunk + rest == s.out + y;
    }
  }

  lemma NothingBad()
    ensures AllKept([]) && EqualSigns([]) == 0
  {
  }

  lemma LinesHead(y: seq<Byte>)
    requires y != [] && |y| % LINE == 0
    ensures |y| >= LINE && |y[LINE..]| % LINE == 0 && |Block(y[..LINE])| == 64
    ensures Lines(y) == Block(y[..LINE]) + [NEWLINE] + Lines(y[LINE..])
  {
    hide Block;
    if |y| == LINE {
      assert y[..LINE] == y && y[LINE..] == [];
    }
  }

  /** A bad character in a whole line is reported as the end of an empty text: "A!AA" and a newline. */
  method BadCharacterUnseen(stray: Byte) returns (rv: int, out: seq<Byte>, end: int, more: seq<Byte>)
    ensures rv == 0 && out == [] && end == 1 && more == []
  {
    hide Run;
    var ctx := new DecodeCtx();
    var text: seq<Byte> := [65, 33, 65, 65, 10];
    hide HasBad, EqualSigns, Gathered, FromAscii;
    BadLine(text);
    NothingBad();
    var w := Gathered(text, 0, 0).0;
    assert [] + w == w;
    BadRun(State([], 0, false, 30, false, 0, []), text, 0, stray);
    rv, out := ctx.Update(text, stray);
    end, more := ctx.Final();
  }

  lemma BadLine(text: seq<Byte>)
    requires text == [65, 33, 65, 65, 10]
    ensures Gathered(text, 0, 0) == (text[..4], true)
    ensures HasBad(text[..4]) && EqualSigns(text[..4]) == 0
  {
    hide Gathered, HasBad, EqualSigns;
    GatheredUnfolds(text, 4, 4);
    assert text[4..4] == [];
    GatherOne(text, 3, 4);
    GatherOne(text, 2, 4);
    GatherOne(text, 1, 4);
    GatherOne(text, 0, 4);
    assert text[0..4] == text[..4];
    OneBad(text[..4], 1);
    NoEquals(text[..4]);
  }

  lemma GatherOne(x: seq<Byte>, i: nat, m: nat)
    requires i < m < |x| && m < 63 && !NotBase64(FromAscii(x[i])) && Gathered(x, i + 1, i + 1) == (x[i + 1..m], true)
    ensures Gathered(x, i, i) == (x[i..m], true)
  {
    hide Gathered, FromAscii;
    GatheredUnfolds(x, i, i);
    assert [x[i]] + x[i + 1..m] == x[i..m];
  }

  lemma OneBad(s: seq<Byte>, i: nat)
    requires i < |s| && Bad(s[i])
    ensures HasBad(s)
  {
  }

  lemma {:induction false} NoEquals(s: seq<Byte>)
    requires EQUALS !in s
    ensures EqualSigns(s) == 0
  {
    if s != [] {
      NoEquals(s[..|s| - 1]);
    }
  }

  // ---------------------------------------------------------------- where the output goes

  /** What every context keeps from the start on: a line has a positive least length, and nothing that a decoder
      would trim is held. */
  predicate Sound(s: State) {
    s.length > 0 && AllKept(s.d)
  }

  lemma StepSound(s: State, c: Byte, last: bool, stray: Byte)
    requires Sound(s)
    ensures Sound(Step(s, c, last, stray).1)
  {
    hide FromAscii, DecodedBlock, Recount;
    var k := Keep(s, c);
    assert AllKept(k.d);
    if k.d != [] && DecodedBlock(k.d).Some? {
      WholeGroups(k.d);
    }
  }

  /** How far the code moves its output pointer in a step. */
  function Moved(s: State, c: Byte, last: bool, stray: Byte): nat {
    var (verdict, t) := Step(s, c, last, stray);
    var k := Keep(s, c);
    if verdict.Go? && k.d != [] && t.d == [] && DecodedBlock(k.d).Some? then |DecodedBlock(k.d).value| else 0
  }

  /** While the loop goes on, the pointer moves by just what is counted as written, so nothing is left between two
      decoded lines. */
  lemma StepContiguous(s: State, c: Byte, stray: Byte)
    requires Sound(s) && (s.eof > 0 ==> s.seen)
    ensures var (verdict, t) := Step(s, c, false, stray);
            verdict.Go? ==> (t.eof > 0 ==> t.seen) && |t.out| == |s.out| + Moved(s, c, false, stray)
  {
    hide FromAscii, DecodedBlock, Recount, AllKept;
  }

  predicate InStep(s: State, x: seq<Byte>, i: nat, at: nat, stray: Byte)
    requires i <= |x|
    decreases |x| - i
  {
    && at == |s.out|
    && (i + 1 < |x| ==>
          var (verdict, t) := Step(s, x[i], false, stray);
          verdict.Go? ==> InStep(t, x, i + 1, at + Moved(s, x[i], false, stray), stray))
  }

  /** In every call, from whatever the calls before have left, each line is written where the count of the bytes
      written says; and the next call starts as soundly. */
  lemma {:induction false} OutputContiguous(s: State, x: seq<Byte>, i: nat, stray: Byte)
    requires i <= |x| && Sound(s) && (s.eof > 0 ==> s.seen)
    ensures InStep(s, x, i, |s.out|, stray) && Sound(Run(s, x, i, stray).1)
    decreases |x| - i
  {
    hide Step, Sound, Moved;
    if i < |x| {
      var last := i + 1 == |x|;
      StepSound(s, x[i], last, stray);
      var (verdict, t) := Step(s, x[i], last, stray);
      if verdict.Go? {
        if last {
          RunEnds(t, x, stray);
        } else {
          StepContiguous(s, x[i], stray);
          OutputContiguous(t, x, i + 1, stray);
        }
      }
    }
  }

  lemma WholeGroups(d: seq<Byte>)
    requires AllKept(d) && DecodedBlock(d).Some? && d != []
    ensures |DecodedBlock(d).value| > 0
  {
  }

  /** One update over a whole encoded text, then the end: exactly the original bytes. */
  method DecodeText(y: seq<Byte>, stray: Byte) returns (out: seq<Byte>, rv: int)
    ensures out == y && rv == 1
  {
    hide Run, Lines, Block;
    var ctx := new DecodeCtx();
    var text := EncodeAll([y]);
    assert Concat([y]) == y by {
      assert [y][1..] == [] && y + [] == y;
    }
    var first, decoded := ctx.Update(text, stray);
    TextStart(y);
    assert text[0..] == text;
    LinesDecode(State([], 0, false, 30, false, 0, []), text, 0, y, stray);
    assert [] + y == y;
    var end, more := ctx.Final();
    out := decoded + more;
    rv := end;
  }

  lemma TextStart(y: seq<Byte>)
    ensures y == [] <==> Lines(y) == []
    ensures y != [] ==> FromAscii(Lines(y)[0]) != EOF
  {
    hide FromAscii, Block;
    if y != [] {
      var chunk := if |y| <= LINE then y else y[..LINE];
      BlockShape(chunk);
      assert Plain(Block(chunk)[0]);
    }
  }
}
