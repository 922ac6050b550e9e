/** Base64 encoding and decoding of a stream in pieces, with lines of 64 characters
    (crypto/base64/base64.c). The output pointer is the sequence of the bytes written. */
module Base64Stream {
  import opened Bytes
  import opened Base64

  const LINE: nat := 48

  // ---------------------------------------------------------------- encoding

  /** The text of some bytes: lines of 64 characters, the last possibly shorter, each ended by a newline. */
  function Lines(x: seq<Byte>): seq<Byte>
    decreases |x|
  {
    if x == [] then []
    else if |x| <= LINE then Block(x) + [NEWLINE]
    else Block(x[..LINE]) + [NEWLINE] + Lines(x[LINE..])
  }

  /** The lines that are complete, and the bytes that wait for more. */
  function FullLines(x: seq<Byte>): seq<Byte>
    decreases |x|
  {
    if |x| < LINE then [] else Block(x[..LINE]) + [NEWLINE] + FullLines(x[LINE..])
  }

  function Pending(x: seq<Byte>): (r: seq<Byte>)
    ensures |r| < LINE
    decreases |x|
  {
    if |x| < LINE then x else Pending(x[LINE..])
  }

  function LastLine(x: seq<Byte>): seq<Byte>
    requires |x| < LINE
  {
    if x == [] then [] else Block(x) + [NEWLINE]
  }

  lemma {:induction false} LinesSplit(x: seq<Byte>)
    ensures Lines(x) == FullLines(x) + LastLine(Pending(x))
    decreases |x|
  {
    hide Block;
    if |x| < LINE {
    } else if |x| == LINE {
      assert x[..LINE] == x && x[LINE..] == [];
    } else {
      hide LastLine;
      LinesSplit(x[LINE..]);
      var head, last := Block(x[..LINE]) + [NEWLINE], LastLine(Pending(x[LINE..]));
      assert head + (FullLines(x[LINE..]) + last) == head + FullLines(x[LINE..]) + last;
    }
  }

  /** Feeding more bytes behind what is pending. */
  lemma {:induction false} MoreBytes(x: seq<Byte>, y: seq<Byte>)
    ensures FullLines(x + y) == FullLines(x) + FullLines(Pending(x) + y)
    ensures Pending(x + y) == Pending(Pending(x) + y)
    decreases |x|
  {
    hide Block;
    if |x| >= LINE {
      assert (x + y)[..LINE] == x[..LINE] && (x + y)[LINE..] == x[LINE..] + y;
      MoreBytes(x[LINE..], y);
      var head := Block(x[..LINE]) + [NEWLINE];
      assert head + (FullLines(x[LINE..]) + FullLines(Pending(x) + y)) ==
             head + FullLines(x[LINE..]) + FullLines(Pending(x) + y);
    } else {
      assert [] + FullLines(x + y) == FullLines(x + y);
    }
  }

  lemma FullStep(x: seq<Byte>)
    requires |x| >= LINE
    ensures FullLines(x) == Block(x[..LINE]) + [NEWLINE] + FullLines(x[LINE..]) && Pending(x) == Pending(x[LINE..])
  {
  }

  lemma ShortPending(x: seq<Byte>)
    requires |x| < LINE
    ensures FullLines(x) == [] && Pending(x) == x
  {
  }

  /** The complete lines of a front part can be written at once. */
  lemma LinesMore(x: seq<Byte>, rest: seq<Byte>)
    ensures Lines(x + rest) == FullLines(x) + Lines(Pending(x) + rest)
  {
    hide Lines, FullLines, Pending, LastLine;
    MoreBytes(x, rest);
    LinesSplit(x + rest);
    LinesSplit(Pending(x) + rest);
    assert FullLines(x) + (FullLines(Pending(x) + rest) + LastLine(Pending(x + rest))) ==
           FullLines(x) + FullLines(Pending(x) + rest) + LastLine(Pending(x + rest));
  }

  /** EVP_ENCODE_CTX while encoding: the bytes saved so far in enc_data. */
  class EncodeCtx {
    var encData: array<Byte>
    var num: nat
    var length: nat

    ghost predicate Valid()
      reads this, encData
    {
      encData.Length == 80 && length == LINE && num < LINE
    }

    ghost function Saved(): seq<Byte>
      requires Valid()
      reads this, encData
    {
      encData[..num]
    }

    /** EVP_EncodeInit. */
    constructor ()
      ensures Valid() && Saved() == [] && fresh(encData)
    {
      encData := new Byte[80];
      num := 0;
      length := LINE;
    }

    method Save(at: nat, x: seq<Byte>)
      requires at + |x| <= encData.Length
      modifies encData
      ensures encData[..at + |x|] == old(encData[..at]) + x
    {
      forall i | 0 <= i < |x| {
        encData[at + i] := x[i];
      }
    }

    /** EVP_EncodeUpdate: every line that is completed goes out, the rest is saved. */
    method Update(x: seq<Byte>) returns (out: seq<Byte>)
      requires Valid()
      modifies this`num, encData
      ensures Valid()
      ensures out == FullLines(old(Saved()) + x) && Saved() == Pending(old(Saved()) + x)
    {
      hide Block, FullLines, Pending;
      out := [];
      ghost var all := Saved() + x;
      if |x| == 0 {
        assert all == Saved();
        ShortPending(all);
        return;
      }
      if num + |x| < length {
        ShortPending(all);
        Save(num, x);
        num := num + |x|;
        return;
      }
      var p := 0;
      if num != 0 {
        var i := length - num;
        Save(num, x[..i]);
        FullStep(all);
        assert encData[..LINE] == all[..LINE] && all[LINE..] == x[i..];
        p := i;
        var j := EncodeBlock(encData[..length]);
        num := 0;
        out := j + [NEWLINE];
      } else {
        assert all == x && x[0..] == x && FullLines(all) == [] + FullLines(all);
      }
      var more := Whole(x[p..]);
      assert FullLines(all) == out + FullLines(x[p..]);
      out := out + more;
    }

    /** The loop over whole lines, and saving what is left. */
    method Whole(x: seq<Byte>) returns (out: seq<Byte>)
      requires Valid() && num == 0
      modifies this`num, encData
      ensures Valid() && out == FullLines(x) && Saved() == Pending(x)
    {
      hide Block, FullLines, Pending;
      out := [];
      var p := 0;
      assert x[0..] == x && [] + FullLines(x) == FullLines(x);
      while |x| - p >= length
        invariant 0 <= p <= |x| && Valid()
        invariant FullLines(x) == out + FullLines(x[p..]) && Pending(x) == Pending(x[p..])
      {
        var j := EncodeBlock(x[p..p + length]);
        FullStep(x[p..]);
        assert x[p..][..LINE] == x[p..p + LINE] && x[p..][LINE..] == x[p + LINE..];
        assert out + (j + [NEWLINE] + FullLines(x[p + LINE..])) == out + j + [NEWLINE] + FullLines(x[p + LINE..]);
        p := p + length;
        out := out + j + [NEWLINE];
      }
      ShortPending(x[p..]);
      assert out + [] == out;
      Save(0, x[p..]);
      num := |x| - p;
      assert encData[..0 + num] == encData[..num];
    }

    /** EVP_EncodeFinal. */
    method Final() returns (out: seq<Byte>)
      requires Valid()
      modifies this`num
      ensures Valid() && Saved() == [] && out == LastLine(old(Saved()))
    {
      out := [];
      if num != 0 {
        var j := EncodeBlock(encData[..num]);
        out := j + [NEWLINE];
        num := 0;
      }
    }
  }

  function Concat(xs: seq<seq<Byte>>): seq<Byte> {
    if xs == [] then [] else xs[0] + Concat(xs[1..])
  }

  /** What the calls of Update write in turn, and Final after them. */
  function Written(saved: seq<Byte>, xs: seq<seq<Byte>>): seq<Byte>
    requires |saved| < LINE
    decreases |xs|
  {
    if xs == [] then LastLine(saved)
    else FullLines(saved + xs[0]) + Written(Pending(saved + xs[0]), xs[1..])
  }

  lemma {:induction false} WrittenLines(saved: seq<Byte>, xs: seq<seq<Byte>>)
    requires |saved| < LINE
    ensures Written(saved, xs) == Lines(saved + Concat(xs))
    decreases |xs|
  {
    hide Lines, FullLines, Pending;
    if xs == [] {
      assert saved + [] == saved;
      LinesSplit(saved);
      ShortPending(saved);
      assert [] + LastLine(saved) == LastLine(saved);
    } else {
      WrittenLines(Pending(saved + xs[0]), xs[1..]);
      LinesMore(saved + xs[0], Concat(xs[1..]));
      assert saved + Concat(xs) == saved + xs[0] + Concat(xs[1..]);
    }
  }

  /** However the bytes are split over the calls, the text is the same. */
  lemma SplitIndependent(xs: seq<seq<Byte>>)
    ensures Written([], xs) == Lines(Concat(xs))
  {
    WrittenLines([], xs);
    assert [] + Concat(xs) == Concat(xs);
  }

  /** EVP_EncodeInit, any number of updates, EVP_EncodeFinal. */
  method EncodeAll(xs: seq<seq<Byte>>) returns (text: seq<Byte>)
    ensures text == Lines(Concat(xs))
  {
    hide Lines, FullLines, Pending, LastLine;
    var ctx := new EncodeCtx();
    text := [];
    var i := 0;
    assert [] + Written([], xs) == Written([], xs) && xs[0..] == xs;
    while i < |xs|
      invariant 0 <= i <= |xs| && ctx.Valid() && fresh(ctx) && fresh(ctx.encData)
      invariant Written([], xs) == text + Written(ctx.Saved(), xs[i..])
    {
      ghost var saved := ctx.Saved();
      var out := ctx.Update(xs[i]);
      assert xs[i..][1..] == xs[i + 1..];
      assert text + (out + Written(ctx.Saved(), xs[i + 1..])) == text + out + Written(ctx.Saved(), xs[i + 1..]);
      text := text + out;
      i := i + 1;
    }
    var out := ctx.Final();
    text := text + out;
    SplitIndependent(xs);
  }
}
