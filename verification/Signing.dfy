/** The canonical string that a request signature is computed over (framework-rest/jni/URLSignature.cpp and
    fmrest.cpp). C strings are sequences of non-zero characters. */
module Signing {
  import opened Bytes

  type Char = x: nat | 0 < x < 256 witness 1

  type Str = seq<Char>

  const PERCENT: Char := 37
  const AMP: Char := 38
  const EQ: Char := 61

  // ---------------------------------------------------------------- percent encoding

  /** notNeedEncoding: letters, digits and - _ . * ~ / : $ */
  predicate Unreserved(c: Char) {
    97 <= c <= 122 || 65 <= c <= 90 || 48 <= c <= 57 || c in [45, 95, 46, 42, 126, 47, 58, 36]
  }

  /** One upper-case hexadecimal digit. */
  function Hex(n: nat): Char
    requires n < 16
  {
    if n < 10 then 48 + n else 55 + n
  }

  function HexValue(c: Char): nat {
    if 48 <= c <= 57 then c - 48 else if 65 <= c <= 70 then c - 55 else 0
  }

  function Escape(c: Char): Str {
    if Unreserved(c) then [c] else [PERCENT, Hex(c / 16), Hex(c % 16)]
  }

  function Encode(s: Str): Str {
    if s == [] then [] else Encode(s[..|s| - 1]) + Escape(s[|s| - 1])
  }

  /** encodeUrl. */
  method EncodeUrl(s: Str) returns (buf: Str)
    ensures buf == Encode(s)
  {
    buf := [];
    var i := 0;
    while i < |s|
      invariant 0 <= i <= |s| && buf == Encode(s[..i])
    {
      var c := s[i];
      assert s[..i + 1][..i] == s[..i];
      if Unreserved(c) {
        buf := buf + [c];
      } else {
        buf := buf + ToHex(c);
      }
      i := i + 1;
    }
    assert s[..|s|] == s;
  }

  /** toHex: a percent sign and two digits. */
  function ToHex(c: Char): Str {
    [PERCENT, Hex(c / 16), Hex(c % 16)]
  }

  /** The characters of encoded text; the separators are not among them. */
  predicate Encoded(s: Str) {
    forall i :: 0 <= i < |s| ==> Unreserved(s[i]) || s[i] == PERCENT
  }

  lemma SeparatorsReserved()
    ensures !Unreserved(PERCENT) && !Unreserved(AMP) && !Unreserved(EQ)
  {
  }

  lemma {:induction false} EncodeIsEncoded(s: Str)
    ensures Encoded(Encode(s)) && AMP !in Encode(s) && EQ !in Encode(s)
    ensures s != [] ==> Encode(s) != []
  {
    hide Unreserved;
    SeparatorsReserved();
    if s != [] {
      EncodeIsEncoded(s[..|s| - 1]);
      EscapeIsEncoded(s[|s| - 1]);
    }
  }

  lemma EscapeIsEncoded(c: Char)
    ensures Escape(c) != [] && Encoded(Escape(c)) && AMP !in Escape(c) && EQ !in Escape(c)
  {
  }

  /** Undoing the encoding, from the end: a percent sign two places before the last character marks an escape. */
  function Decode(s: Str): Option<seq<Byte>> {
    if s == [] then Some([])
    else
      var n := |s|;
      if n >= 3 && s[n - 3] == PERCENT then
        var front := Decode(s[..n - 3]);
        var v := HexValue(s[n - 2]) * 16 + HexValue(s[n - 1]);
        if front.None? || v >= 256 then None else Some(front.value + [v])
      else
        var front := Decode(s[..n - 1]);
        if front.None? then None else Some(front.value + [s[n - 1]])
  }

  /** A percent sign never stands at the last two places. */
  lemma {:induction false} NoPercentAtEnd(s: Str)
    ensures var e := Encode(s);
            (|e| >= 1 ==> e[|e| - 1] != PERCENT) && (|e| >= 2 ==> e[|e| - 2] != PERCENT)
  {
    hide Unreserved;
    SeparatorsReserved();
    if s != [] {
      NoPercentAtEnd(s[..|s| - 1]);
      if !Unreserved(s[|s| - 1]) {
        HexNotPercent(s[|s| - 1]);
      }
    }
  }

  lemma HexNotPercent(c: Char)
    ensures Hex(c / 16) != PERCENT && Hex(c % 16) != PERCENT
    ensures HexValue(Hex(c / 16)) * 16 + HexValue(Hex(c % 16)) == c
  {
  }

  /** The encoding can be undone. */
  lemma {:induction false} DecodeEncode(s: Str)
    ensures Decode(Encode(s)) == Some(s)
  {
    hide Unreserved, Hex, HexValue, Decode, Encode;
    if s == [] {
      NothingEncoded();
    } else {
      var front, c := s[..|s| - 1], s[|s| - 1];
      DecodeEncode(front);
      NoPercentAtEnd(front);
      LastEncoded(s);
      DecodeLast(Encode(front), front, c);
      assert s == front + [c];
    }
  }

  lemma NothingEncoded()
    ensures Encode([]) == [] && Decode([]) == Some([])
  {
  }

  lemma LastEncoded(s: Str)
    requires s != []
    ensures Encode(s) == Encode(s[..|s| - 1]) + Escape(s[|s| - 1])
  {
  }

  lemma DecodeLast(e: Str, front: Str, c: Char)
    requires Decode(e) == Some(front)
    requires (|e| >= 1 ==> e[|e| - 1] != PERCENT) && (|e| >= 2 ==> e[|e| - 2] != PERCENT)
    ensures Decode(e + Escape(c)) == Some(front + [c])
  {
    hide Unreserved, Hex, HexValue, Decode;
    HexNotPercent(c);
    var all := e + Escape(c);
    var n := |all|;
    if Unreserved(c) {
      assert all[..n - 1] == e && all[n - 1] == c;
      assert n >= 3 ==> all[n - 3] == e[|e| - 2];
      DecodePlain(all);
    } else {
      assert all[..n - 3] == e && all[n - 3] == PERCENT;
      DecodeEscape(all);
    }
  }

  lemma DecodePlain(s: Str)
    requires s != [] && (|s| >= 3 ==> s[|s| - 3] != PERCENT) && Decode(s[..|s| - 1]).Some?
    ensures Decode(s) == Some(Decode(s[..|s| - 1]).value + [s[|s| - 1]])
  {
  }

  lemma DecodeEscape(s: Str)
    requires |s| >= 3 && s[|s| - 3] == PERCENT && Decode(s[..|s| - 3]).Some?
    ensures var v := HexValue(s[|s| - 2]) * 16 + HexValue(s[|s| - 1]);
            v < 256 ==> Decode(s) == Some(Decode(s[..|s| - 3]).value + [v])
  {
  }

  lemma EncodeInjective(s: Str, t: Str)
    requires Encode(s) == Encode(t)
    ensures s == t
  {
    DecodeEncode(s);
    DecodeEncode(t);
  }

  // ---------------------------------------------------------------- pairs

  /** An encoded key and value. */
  function Pair(kv: (Str, Str)): Str {
    Encode(kv.0) + [EQ] + Encode(kv.1)
  }

  function Pairs(kvs: seq<(Str, Str)>): (r: seq<Str>)
    ensures |r| == |kvs|
  {
    if kvs == [] then [] else Pairs(kvs[..|kvs| - 1]) + [Pair(kvs[|kvs| - 1])]
  }

  /** The keys and values that belong together: up to the shorter array, without those that cannot be read. */
  function Present(names: seq<Option<Str>>, values: seq<Option<Str>>, n: nat): seq<(Str, Str)>
    requires n <= |names| && n <= |values|
  {
    if n == 0 then []
    else if names[n - 1].Some? && values[n - 1].Some?
    then Present(names, values, n - 1) + [(names[n - 1].value, values[n - 1].value)]
    else Present(names, values, n - 1)
  }

  /** The loop of toParamList. */
  method ToParamList(names: seq<Option<Str>>, values: seq<Option<Str>>) returns (params: seq<Str>)
    ensures params == Pairs(Present(names, values, if |names| < |values| then |names| else |values|))
  {
    var count := if |names| < |values| then |names| else |values|;
    params := [];
    var i := 0;
    while i < count
      invariant 0 <= i <= count && params == Pairs(Present(names, values, i))
    {
      if names[i].Some? && values[i].Some? {
        var k := EncodeUrl(names[i].value);
        var v := EncodeUrl(values[i].value);
        var kv := (names[i].value, values[i].value);
        assert Present(names, values, i + 1) == Present(names, values, i) + [kv];
        assert Present(names, values, i + 1)[..|Present(names, values, i)|] == Present(names, values, i);
        params := params + [k + [EQ] + v];
      }
      i := i + 1;
    }
  }

  /** How many characters come before the first x, and after the last one. */
  function Before(s: Str, x: Char): nat {
    if s == [] || s[0] == x then 0 else 1 + Before(s[1..], x)
  }

  function After(s: Str, x: Char): nat {
    if s == [] || s[|s| - 1] == x then 0 else 1 + After(s[..|s| - 1], x)
  }

  lemma {:induction false} BeforeCut(a: Str, b: Str, x: Char)
    requires x !in a
    ensures Before(a + [x] + b, x) == |a|
  {
    if a != [] {
      assert (a + [x] + b)[1..] == a[1..] + [x] + b;
      BeforeCut(a[1..], b, x);
    }
  }

  lemma {:induction false} AfterCut(a: Str, b: Str, x: Char)
    requires x !in b
    ensures After(a + [x] + b, x) == |b|
    decreases |b|
  {
    if b == [] {
      assert a + [x] + [] == a + [x];
    } else {
      var n := |b| - 1;
      assert (a + [x] + b)[..|a| + 1 + n] == a + [x] + b[..n];
      AfterCut(a, b[..n], x);
    }
  }

  /** Cutting at the first separator. */
  lemma CutUnique(a: Str, b: Str, c: Str, d: Str, x: Char)
    requires a + [x] + b == c + [x] + d && x !in a && x !in c
    ensures a == c && b == d
  {
    BeforeCut(a, b, x);
    BeforeCut(c, d, x);
    SamePlace(a, b, c, d, x);
  }

  /** Cutting at the last separator. */
  lemma CutLast(a: Str, b: Str, c: Str, d: Str, x: Char)
    requires a + [x] + b == c + [x] + d && x !in b && x !in d
    ensures a == c && b == d
  {
    AfterCut(a, b, x);
    AfterCut(c, d, x);
    assert |a + [x] + b| == |a| + 1 + |b| && |c + [x] + d| == |c| + 1 + |d|;
    SamePlace(a, b, c, d, x);
  }

  lemma SamePlace(a: Str, b: Str, c: Str, d: Str, x: Char)
    requires a + [x] + b == c + [x] + d && |a| == |c|
    ensures a == c && b == d
  {
    var s := a + [x] + b;
    assert a == s[..|a|] && c == (c + [x] + d)[..|a|];
    assert b == s[|a| + 1..] && d == (c + [x] + d)[|a| + 1..];
  }

  lemma PairInjective(p: (Str, Str), q: (Str, Str))
    requires Pair(p) == Pair(q)
    ensures p == q
  {
    hide Encode;
    EncodeIsEncoded(p.0);
    EncodeIsEncoded(q.0);
    CutUnique(Encode(p.0), Encode(p.1), Encode(q.0), Encode(q.1), EQ);
    EncodeInjective(p.0, q.0);
    EncodeInjective(p.1, q.1);
  }

  /** A pair occurs among the pairs as often as its text among the texts. */
  lemma {:induction false} PairsCount(kvs: seq<(Str, Str)>, p: (Str, Str))
    ensures multiset(Pairs(kvs))[Pair(p)] == multiset(kvs)[p]
  {
    hide Pair;
    if kvs != [] {
      var front, last := kvs[..|kvs| - 1], kvs[|kvs| - 1];
      PairsCount(front, p);
      assert kvs == front + [last];
      if Pair(last) == Pair(p) {
        PairInjective(last, p);
      }
    }
  }

  lemma SamePairs(p: seq<(Str, Str)>, q: seq<(Str, Str)>)
    ensures multiset(Pairs(p)) == multiset(Pairs(q)) <==> multiset(p) == multiset(q)
  {
    hide Pair, Pairs;
    if multiset(Pairs(p)) == multiset(Pairs(q)) {
      forall kv: (Str, Str) ensures multiset(p)[kv] == multiset(q)[kv] {
        PairsCount(p, kv);
        PairsCount(q, kv);
      }
    }
    if multiset(p) == multiset(q) {
      forall t: Str ensures multiset(Pairs(p))[t] == multiset(Pairs(q))[t] {
        if t in Pairs(p) {
          var kv := PairOf(p, t);
          PairsCount(p, kv);
          PairsCount(q, kv);
        } else if t in Pairs(q) {
          var kv := PairOf(q, t);
          PairsCount(p, kv);
          PairsCount(q, kv);
        }
      }
    }
  }

  lemma {:induction false} PairOf(kvs: seq<(Str, Str)>, t: Str) returns (kv: (Str, Str))
    requires t in Pairs(kvs)
    ensures kv in kvs && Pair(kv) == t
  {
    hide Pair;
    var n := |kvs| - 1;
    if t == Pair(kvs[n]) {
      kv := kvs[n];
    } else {
      kv := PairOf(kvs[..n], t);
    }
  }

  // ---------------------------------------------------------------- sorting

  /** operator <= of std::string: character by character, a prefix first. */
  predicate Leq(s: Str, t: Str) {
    s == [] || (t != [] && (s[0] < t[0] || (s[0] == t[0] && Leq(s[1..], t[1..]))))
  }

  lemma {:induction false} LeqTotal(s: Str, t: Str)
    ensures Leq(s, t) || Leq(t, s)
  {
    if s != [] && t != [] {
      LeqTotal(s[1..], t[1..]);
    }
  }

  lemma {:induction false} LeqAntisymmetric(s: Str, t: Str)
    requires Leq(s, t) && Leq(t, s)
    ensures s == t
  {
    if s != [] && t != [] {
      LeqAntisymmetric(s[1..], t[1..]);
      assert s == [s[0]] + s[1..] && t == [t[0]] + t[1..];
    }
  }

  lemma {:induction false} LeqTransitive(s: Str, t: Str, u: Str)
    requires Leq(s, t) && Leq(t, u)
    ensures Leq(s, u)
  {
    if s != [] && t != [] && u != [] && s[0] == t[0] == u[0] {
      LeqTransitive(s[1..], t[1..], u[1..]);
    }
  }

  predicate Sorted(xs: seq<Str>) {
    forall i, j :: 0 <= i < j < |xs| ==> Leq(xs[i], xs[j])
  }

  /** list::sort with compreParamString, whose outcome is a sorted permutation; there is only one. */
  method Sort(xs: seq<Str>) returns (r: seq<Str>)
    ensures Sorted(r) && multiset(r) == multiset(xs)
  {
    hide Leq;
    r := [];
    var i := 0;
    while i < |xs|
      invariant 0 <= i <= |xs| && Sorted(r) && multiset(r) == multiset(xs[..i])
    {
      var k := 0;
      while k < |r| && Leq(r[k], xs[i])
        invariant 0 <= k <= |r| && forall j :: 0 <= j < k ==> Leq(r[j], xs[i])
      {
        k := k + 1;
      }
      InsertSorted(r, k, xs[i]);
      assert r == r[..k] + r[k..] && xs[..i + 1] == xs[..i] + [xs[i]];
      r := r[..k] + [xs[i]] + r[k..];
      i := i + 1;
    }
    assert xs[..|xs|] == xs;
  }

  lemma InsertSorted(r: seq<Str>, k: nat, x: Str)
    requires Sorted(r) && k <= |r| && (forall j :: 0 <= j < k ==> Leq(r[j], x))
    requires k < |r| ==> !Leq(r[k], x)
    ensures Sorted(r[..k] + [x] + r[k..])
  {
    hide Leq;
    var s := r[..k] + [x] + r[k..];
    forall i, j | 0 <= i < j < |s| ensures Leq(s[i], s[j]) {
      if i == k {
        LeqTotal(x, r[k]);
        if j > k + 1 {
          LeqTransitive(x, r[k], r[j - 1]);
        }
      }
    }
  }

  lemma LastIsGreatest(xs: seq<Str>, x: Str)
    requires Sorted(xs) && x in xs
    ensures Leq(x, xs[|xs| - 1])
  {
    hide Leq;
    LeqTotal(x, x);
  }

  /** The order of the texts is determined by which texts there are: two sorted lists of the same texts agree from
      the greatest one down. */
  lemma {:induction false} OrderDetermined(xs: seq<Str>, ys: seq<Str>)
    requires Sorted(xs) && Sorted(ys) && multiset(xs) == multiset(ys)
    ensures xs == ys
    decreases |xs|
  {
    hide Leq;
    SameSize(xs, ys);
    if |xs| > 0 {
      var n := |xs| - 1;
      var top := xs[n];
      LastIsGreatest(ys, top);
      LastIsGreatest(xs, ys[n]);
      LeqAntisymmetric(top, ys[n]);
      WithoutLast(xs);
      WithoutLast(ys);
      OrderDetermined(xs[..n], ys[..n]);
    }
  }

  lemma SameSize(xs: seq<Str>, ys: seq<Str>)
    requires multiset(xs) == multiset(ys)
    ensures |xs| == |ys| && forall x :: x in xs <==> x in ys
  {
    assert |multiset(xs)| == |xs| && |multiset(ys)| == |ys|;
    forall x ensures x in xs <==> x in ys {
      assert x in xs <==> x in multiset(xs);
      assert x in ys <==> x in multiset(ys);
    }
  }

  lemma WithoutLast(xs: seq<Str>)
    requires xs != []
    ensures multiset(xs[..|xs| - 1]) == multiset(xs) - multiset{xs[|xs| - 1]}
  {
    assert xs[..|xs| - 1] + [xs[|xs| - 1]] == xs;
  }

  // ---------------------------------------------------------------- joining

  function Join(xs: seq<Str>): Str {
    if xs == [] then [] else if |xs| == 1 then xs[0] else Join(xs[..|xs| - 1]) + [AMP] + xs[|xs| - 1]
  }

  predicate Piece(x: Str) {
    x != [] && AMP !in x
  }

  /** Texts without the separator come apart again. */
  lemma {:induction false} JoinInjective(xs: seq<Str>, ys: seq<Str>)
    requires (forall i :: 0 <= i < |xs| ==> Piece(xs[i])) && (forall i :: 0 <= i < |ys| ==> Piece(ys[i]))
    requires Join(xs) == Join(ys)
    ensures xs == ys
    decreases |xs|
  {
    hide Piece;
    if |xs| <= 1 || |ys| <= 1 {
      FewPieces(xs, ys);
    } else {
      var n, m := |xs| - 1, |ys| - 1;
      PieceHasNone(xs[n]);
      PieceHasNone(ys[m]);
      CutLast(Join(xs[..n]), xs[n], Join(ys[..m]), ys[m], AMP);
      JoinInjective(xs[..n], ys[..m]);
      assert xs == xs[..n] + [xs[n]] && ys == ys[..m] + [ys[m]];
    }
  }

  lemma PieceHasNone(x: Str)
    requires Piece(x)
    ensures x != [] && AMP !in x
  {
  }

  lemma FewPieces(xs: seq<Str>, ys: seq<Str>)
    requires (forall i :: 0 <= i < |xs| ==> Piece(xs[i])) && (forall i :: 0 <= i < |ys| ==> Piece(ys[i]))
    requires Join(xs) == Join(ys) && (|xs| <= 1 || |ys| <= 1)
    ensures xs == ys
  {
  }

  /** encodeParams: sort, join with '&', encode once more. */
  method EncodeParams(params: seq<Str>) returns (buf: Str)
    ensures exists sorted :: Sorted(sorted) && multiset(sorted) == multiset(params) && buf == Encode(Join(sorted))
  {
    hide Sorted, Encode;
    var sorted := Sort(params);
    var joined: Str := [];
    var i := 0;
    while i < |sorted|
      invariant 0 <= i <= |sorted| && joined == Join(sorted[..i])
    {
      if i != 0 {
        joined := joined + [AMP];
      }
      assert sorted[..i + 1][..i] == sorted[..i];
      joined := joined + sorted[i];
      i := i + 1;
    }
    assert sorted[..|sorted|] == sorted;
    buf := EncodeUrl(joined);
  }

  /** What encodeParams can return for some pairs. */
  ghost predicate Canonical(kvs: seq<(Str, Str)>, buf: Str) {
    exists sorted :: Sorted(sorted) && multiset(sorted) == multiset(Pairs(kvs)) && buf == Encode(Join(sorted))
  }

  lemma {:induction false} PairsArePieces(kvs: seq<(Str, Str)>)
    ensures forall t :: t in multiset(Pairs(kvs)) ==> Piece(t)
  {
    hide Pair, Piece;
    if kvs != [] {
      var n := |kvs| - 1;
      PairsArePieces(kvs[..n]);
      PairIsPiece(kvs[n]);
      assert Pairs(kvs) == Pairs(kvs[..n]) + [Pair(kvs[n])];
    }
  }

  lemma PairIsPiece(kv: (Str, Str))
    ensures Piece(Pair(kv))
  {
    hide Encode;
    EncodeIsEncoded(kv.0);
    EncodeIsEncoded(kv.1);
  }

  /** The encoded parameters are equal exactly when one list of pairs is a permutation of the other. */
  lemma ParamsCanonical(p: seq<(Str, Str)>, q: seq<(Str, Str)>, bp: Str, bq: Str)
    requires Canonical(p, bp) && Canonical(q, bq)
    ensures bp == bq <==> multiset(p) == multiset(q)
  {
    hide Sorted, Encode, Join, Pairs, Piece;
    var sp :| Sorted(sp) && multiset(sp) == multiset(Pairs(p)) && bp == Encode(Join(sp));
    var sq :| Sorted(sq) && multiset(sq) == multiset(Pairs(q)) && bq == Encode(Join(sq));
    SamePairs(p, q);
    if bp == bq {
      EncodeInjective(Join(sp), Join(sq));
      PairsArePieces(p);
      PairsArePieces(q);
      assert forall i :: 0 <= i < |sp| ==> sp[i] in multiset(sp);
      assert forall i :: 0 <= i < |sq| ==> sq[i] in multiset(sq);
      JoinInjective(sp, sq);
    }
    if multiset(p) == multiset(q) {
      OrderDetermined(sp, sq);
    }
  }

  // ---------------------------------------------------------------- the message

  function Message(verb: Str, url: Str, data: Str, secret: Str): Str {
    verb + [AMP] + Encode(url) + [AMP] + data + secret
  }

  /** strcpy or strcat: the text goes in at p with its NUL behind it. */
  method Append(msg: array<Byte>, p: nat, s: Str) returns (q: nat)
    requires p + |s| < msg.Length
    modifies msg
    ensures q == p + |s| && msg[..q] == old(msg[..p]) + s && msg[q] == 0
  {
    var i := 0;
    while i < |s|
      invariant 0 <= i <= |s| && msg[..p + i] == old(msg[..p]) + s[..i]
    {
      msg[p + i] := s[i];
      i := i + 1;
    }
    q := p + i;
    msg[q] := 0;
    assert s[..|s|] == s;
  }

  /** The message of signUrl, in a buffer that is exactly large enough. */
  method BuildMessage(verb: Str, url: Str, data: Str, secret: Str) returns (msg: array<Byte>)
    ensures fresh(msg) && msg.Length == |Message(verb, url, data, secret)| + 1
    ensures msg[..msg.Length - 1] == Message(verb, url, data, secret) && msg[msg.Length - 1] == 0
  {
    hide Encode;
    var encoded := EncodeUrl(url);
    msg := new Byte[|verb| + |encoded| + |data| + |secret| + 3];
    var p := Append(msg, 0, verb);
    assert msg[..p] == verb;
    p := Append(msg, p, [AMP]);
    p := Append(msg, p, encoded);
    ghost var head := verb + [AMP] + encoded;
    assert msg[..p] == head;
    p := Append(msg, p, [AMP]);
    p := Append(msg, p, data);
    p := Append(msg, p, secret);
    assert msg[..p] == head + [AMP] + data + secret;
  }

  /** For a fixed secret the message determines the method, the URL and the pairs up to their order: no two
      different requests are signed alike, and the order of the parameters does not matter. */
  lemma MessageDetermines(verb: Str, url: Str, kvs: seq<(Str, Str)>, data: Str,
                          verb': Str, url': Str, kvs': seq<(Str, Str)>, data': Str, secret: Str)
    requires Canonical(kvs, data) && Canonical(kvs', data')
    ensures Message(verb, url, data, secret) == Message(verb', url', data', secret) <==>
            verb == verb' && url == url' && multiset(kvs) == multiset(kvs')
  {
    hide Encode, Sorted, Join, Pairs;
    ParamsCanonical(kvs, kvs', data, data');
    if Message(verb, url, data, secret) == Message(verb', url', data', secret) {
      CanonicalHasNone(kvs, data);
      CanonicalHasNone(kvs', data');
      EncodeIsEncoded(url);
      EncodeIsEncoded(url');
      var a, a' := verb + [AMP] + Encode(url), verb' + [AMP] + Encode(url');
      DropSuffix(a + [AMP] + data, a' + [AMP] + data', secret);
      CutLast(a, data, a', data', AMP);
      CutLast(verb, Encode(url), verb', Encode(url'), AMP);
      EncodeInjective(url, url');
    }
  }

  lemma DropSuffix(a: Str, b: Str, c: Str)
    requires a + c == b + c
    ensures a == b
  {
    assert |a| == |b|;
    assert a == (a + c)[..|a|] && b == (b + c)[..|b|];
  }

  lemma CanonicalHasNone(kvs: seq<(Str, Str)>, data: Str)
    requires Canonical(kvs, data)
    ensures AMP !in data
  {
    hide Encode, Sorted, Join, Pairs;
    var sorted :| Sorted(sorted) && multiset(sorted) == multiset(Pairs(kvs)) && data == Encode(Join(sorted));
    EncodeIsEncoded(Join(sorted));
  }

  /** From the arrays of names and values to the message. */
  method SignedMessage(verb: Str, url: Str, names: seq<Option<Str>>, values: seq<Option<Str>>, secret: Str)
    returns (msg: array<Byte>, ghost data: Str)
    ensures Canonical(Present(names, values, if |names| < |values| then |names| else |values|), data)
    ensures fresh(msg) && msg.Length > 0 && msg[..msg.Length - 1] == Message(verb, url, data, secret)
  {
    hide Sorted, Encode, Join, Pairs, Present;
    var params := ToParamList(names, values);
    var buf := EncodeParams(params);
    data := buf;
    msg := BuildMessage(verb, url, buf, secret);
  }
}
