/** ez_parser and ez_next_line: a cursor that cuts a file into lines of bounded length. */
module LineCursor {
  import opened Bits

  /** One call's piece: the stretch of the file it copies, and whether it consumes a newline behind it. */
  datatype Piece = Piece(from: nat, to: nat, endsLine: bool) {
    function Next(): nat {
      if endsLine then to + 1 else to
    }

    function Length(): int {
      to - from
    }
  }

  /** The first newline from `i` on, or the end of the file. */
  function Newline(f: seq<char>, i: nat): (n: nat)
    requires i <= |f|
    ensures i <= n <= |f|
    decreases |f| - i
  {
    if i == |f| || f[i] == '\n' then i else Newline(f, i + 1)
  }

  lemma {:induction false} NewlineIsFirst(f: seq<char>, i: nat)
    requires i <= |f|
    ensures Newline(f, i) < |f| ==> f[Newline(f, i)] == '\n'
    ensures forall j: nat :: i <= j < Newline(f, i) ==> f[j] != '\n'
    decreases |f| - i
  {
    if i < |f| && f[i] != '\n' {
      NewlineIsFirst(f, i + 1);
    }
  }

  /** The piece a call is meant to deliver. */
  function Cut(f: seq<char>, c: nat, size: nat): (p: Piece)
    requires c < |f|
    ensures p.from == c <= p.to <= |f| && c <= p.Next() <= |f|
    ensures size > 0 ==> c < p.Next()
  {
    var n := Newline(f, c);
    if n == |f| then Piece(c, |f|, false)
    else if n - c > size then Piece(c, c + size, false)
    else Piece(c, n, true)
  }

  /** A piece with the newline it consumed. */
  function Text(f: seq<char>, p: Piece): seq<char>
    requires p.from <= p.to <= |f|
  {
    f[p.from..p.to] + if p.endsLine then ['\n'] else []
  }

  /** What a call leaves in the buffer. */
  function Padded(text: seq<char>, size: nat): (r: seq<char>)
    requires |text| <= size
    ensures |r| == size
    ensures forall k: nat :: k < size ==> r[k] == if k < |text| then text[k] else '\0'
  {
    text + seq(size - |text|, _ => '\0')
  }

  lemma PaddedAt(f: seq<char>, from: nat, to: nat, size: nat, b: seq<char>)
    requires from <= to <= |f| && to - from <= size && b == Padded(f[from..to], size)
    ensures forall k: nat :: k < size ==> b[k] == if k < to - from then f[from + k] else '\0'
  {
  }

  /** The unterminated tail is copied whole, so it must fit the buffer. */
  predicate Fits(f: seq<char>, c: nat, size: nat)
    requires c <= |f|
  {
    Newline(f, c) == |f| ==> |f| - c <= size
  }

  /** All the pieces from `c` to the end of the file. */
  function Pieces(f: seq<char>, c: nat, size: nat): (ps: seq<Piece>)
    requires c <= |f| && size > 0
    ensures forall i: nat :: i < |ps| ==> ps[i].from <= ps[i].to <= |f|
    decreases |f| - c
  {
    if c == |f| then [] else [Cut(f, c, size)] + Pieces(f, Cut(f, c, size).Next(), size)
  }

  function Join(f: seq<char>, ps: seq<Piece>): seq<char>
    requires forall i: nat :: i < |ps| ==> ps[i].from <= ps[i].to <= |f|
  {
    if ps == [] then [] else Text(f, ps[0]) + Join(f, ps[1..])
  }

  lemma CutText(f: seq<char>, c: nat, size: nat)
    requires c < |f| && size > 0
    ensures Text(f, Cut(f, c, size)) == f[c..Cut(f, c, size).Next()]
  {
    NewlineIsFirst(f, c);
  }

  /** Nothing is lost: the pieces and the newlines they consumed concatenate back to the file. */
  lemma {:induction false} PiecesRebuildFile(f: seq<char>, c: nat, size: nat)
    requires c <= |f| && size > 0
    ensures Join(f, Pieces(f, c, size)) == f[c..]
    decreases |f| - c
  {
    if c < |f| {
      var p := Cut(f, c, size);
      CutText(f, c, size);
      PiecesRebuildFile(f, p.Next(), size);
      assert Pieces(f, c, size)[1..] == Pieces(f, p.Next(), size);
      assert f[c..] == f[c..p.Next()] + f[p.Next()..];
    }
  }

  // ---------- how many pieces a line gives ----------

  /** max(1, ceil(len / size)) */
  function PieceCount(len: nat, size: nat): (k: nat)
    requires size > 0
    ensures k >= 1
  {
    if len == 0 then 1 else (len + size - 1) / size
  }

  lemma PieceCountStep(len: nat, size: nat)
    requires size > 0
    ensures len <= size ==> PieceCount(len, size) == 1
    ensures len > size ==> PieceCount(len, size) == 1 + PieceCount(len - size, size)
  {
    if len > size {
      DivStep(len - size + size - 1, size);
    } else if len > 0 {
      DivStep(len - 1, size);
    }
  }

  lemma DivStep(a: nat, m: nat)
    requires m > 0
    ensures (a + m) / m == a / m + 1
    ensures a < m ==> a / m == 0
  {
    var q, r := a / m, a % m;
    assert a + m == m * (q + 1) + r;
    ModUnique(a + m, m, q + 1, r);
    if a < m {
      ModUnique(a, m, 0, a);
    }
  }

  /** The pieces of one terminated line: full ones, then one that ends it. */
  ghost predicate CutsLine(ps: seq<Piece>, len: nat, size: nat)
    requires size > 0
  {
    && |ps| == PieceCount(len, size)
    && (forall i: nat :: i < |ps| ==> ps[i].endsLine == (i == |ps| - 1))
    && (forall i: nat :: i < |ps| - 1 ==> ps[i].Length() == size)
    && ps[|ps| - 1].Length() <= size
    && (len > 0 ==> ps[|ps| - 1].Length() > 0)
  }

  lemma CutsLongerLine(p: Piece, ps: seq<Piece>, len: nat, size: nat)
    requires len > size > 0 && p.Length() == size && !p.endsLine && CutsLine(ps, len - size, size)
    ensures CutsLine([p] + ps, len, size)
  {
    PieceCountStep(len, size);
  }

  /** The pieces of the line that starts at `c`. */
  function LinePieces(f: seq<char>, c: nat, size: nat): seq<Piece>
    requires c < |f| && size > 0 && Newline(f, c) < |f|
    decreases |f| - c
  {
    var p := Cut(f, c, size);
    if p.endsLine then [p] else NewlineSkips(f, c, p.Next()); [p] + LinePieces(f, p.Next(), size)
  }

  /** A terminated line gives max(1, ceil(length / size)) pieces, none of them empty unless the line is. */
  lemma {:induction false} LineIsCut(f: seq<char>, c: nat, size: nat)
    requires c < |f| && size > 0 && Newline(f, c) < |f|
    ensures CutsLine(LinePieces(f, c, size), Newline(f, c) - c, size)
    decreases |f| - c
  {
    var n, p := Newline(f, c), Cut(f, c, size);
    if n - c > size {
      NewlineSkips(f, c, c + size);
      LineIsCut(f, c + size, size);
      CutsLongerLine(p, LinePieces(f, c + size, size), n - c, size);
    } else {
      PieceCountStep(n - c, size);
    }
  }

  /** After the pieces of a line come those of the next. */
  lemma {:induction false} LineThenRest(f: seq<char>, c: nat, size: nat)
    requires c < |f| && size > 0 && Newline(f, c) < |f|
    ensures Pieces(f, c, size) == LinePieces(f, c, size) + Pieces(f, Newline(f, c) + 1, size)
    decreases |f| - c
  {
    var p := Cut(f, c, size);
    CutCases(f, c, size);
    if !p.endsLine {
      LineThenRest(f, p.Next(), size);
      Reassociate([p], LinePieces(f, p.Next(), size), Pieces(f, Newline(f, c) + 1, size));
    }
  }

  /** On a terminated line the cursor stays on the line or passes its newline. */
  lemma CutCases(f: seq<char>, c: nat, size: nat)
    requires c < |f| && size > 0 && Newline(f, c) < |f|
    ensures var p, n := Cut(f, c, size), Newline(f, c);
      if p.endsLine then p.Next() == n + 1 else p.Next() <= n && Newline(f, p.Next()) == n
  {
    var p := Cut(f, c, size);
    if !p.endsLine {
      NewlineSkips(f, c, p.Next());
    }
  }

  lemma Reassociate(a: seq<Piece>, b: seq<Piece>, c: seq<Piece>)
    ensures a + (b + c) == (a + b) + c
  {
  }

  lemma {:induction false} NewlineSkips(f: seq<char>, c: nat, d: nat)
    requires c <= |f| && c <= d <= Newline(f, c)
    ensures Newline(f, d) == Newline(f, c)
    decreases d - c
  {
    if c < d {
      NewlineSkips(f, c + 1, d);
    }
  }

  /** The number of calls, line by line. */
  function LineTotal(f: seq<char>, c: nat, size: nat): nat
    requires c <= |f| && size > 0
    decreases |f| - c
  {
    if c == |f| then 0
    else if Newline(f, c) == |f| then 1
    else PieceCount(Newline(f, c) - c, size) + LineTotal(f, Newline(f, c) + 1, size)
  }

  /** The calls add up: one share for each terminated line and one for a non-empty tail. */
  lemma {:induction false} CallsAddUp(f: seq<char>, c: nat, size: nat)
    requires c <= |f| && size > 0
    ensures |Pieces(f, c, size)| == LineTotal(f, c, size)
    decreases |f| - c
  {
    if c < |f| {
      var n := Newline(f, c);
      if n < |f| {
        LineIsCut(f, c, size);
        LineThenRest(f, c, size);
        CallsAddUp(f, n + 1, size);
      } else {
        var p := Cut(f, c, size);
        assert p.Next() == |f| && Pieces(f, p.Next(), size) == [];
      }
    }
  }

  /** The lines of the file: the terminated ones and a non-empty tail. */
  function LineCount(f: seq<char>, c: nat): nat
    requires c <= |f|
    decreases |f| - c
  {
    if c == |f| then 0
    else if Newline(f, c) == |f| then 1
    else 1 + LineCount(f, Newline(f, c) + 1)
  }

  predicate NoLongLine(f: seq<char>, c: nat, size: nat)
    requires c <= |f|
    decreases |f| - c
  {
    Newline(f, c) == |f| || (Newline(f, c) - c <= size && NoLongLine(f, Newline(f, c) + 1, size))
  }

  /** One call per line, so that `line` counts lines, exactly when no terminated line is longer than the buffer. */
  lemma {:induction false} LineNumbersAreRight(f: seq<char>, c: nat, size: nat)
    requires c <= |f| && size > 0
    ensures LineCount(f, c) <= LineTotal(f, c, size)
    ensures LineCount(f, c) == LineTotal(f, c, size) <==> NoLongLine(f, c, size)
    decreases |f| - c
  {
    if Newline(f, c) < |f| {
      PieceCountStep(Newline(f, c) - c, size);
      LineNumbersAreRight(f, Newline(f, c) + 1, size);
    }
  }

  /** A line of two characters read through a buffer of one is counted twice. */
  lemma LongLineCountsTwice()
    ensures LineTotal("ab\n", 0, 1) == 2 && LineCount("ab\n", 0) == 1
  {
    assert Newline("ab\n", 2) == 2;
    assert Newline("ab\n", 3) == 3;
  }

  // ---------- when every call stays inside the buffer ----------

  /** Where the text behind the last newline begins. */
  function TailStart(f: seq<char>, c: nat): (t: nat)
    requires c <= |f|
    ensures c <= t <= |f|
    decreases |f| - c
  {
    if Newline(f, c) == |f| then c else TailStart(f, Newline(f, c) + 1)
  }

  ghost predicate AllFit(f: seq<char>, c: nat, size: nat)
    requires c <= |f| && size > 0
    decreases |f| - c
  {
    c == |f| || (Fits(f, c, size) && AllFit(f, Cut(f, c, size).Next(), size))
  }

  /** Every call of the whole reading stays inside the buffer exactly when the unterminated tail fits it. */
  lemma {:induction false} AllFitIffTailFits(f: seq<char>, c: nat, size: nat)
    requires c <= |f| && size > 0
    ensures AllFit(f, c, size) <==> |f| - TailStart(f, c) <= size
    decreases |f| - c
  {
    if c < |f| {
      var n, p := Newline(f, c), Cut(f, c, size);
      AllFitIffTailFits(f, p.Next(), size);
      if n < |f| && n - c > size {
        NewlineSkips(f, c, c + size);
      }
    }
  }

  /** An unterminated tail of two characters overruns a buffer of one. */
  lemma LongTailOverruns()
    ensures !AllFit("ab", 0, 1)
  {
    assert Newline("ab", 1) == 2;
  }

  // ---------- what the buffers receive ----------

  /** Each buffer holds its piece of the file, padded with zeros. */
  ghost predicate Delivered(f: seq<char>, ps: seq<Piece>, bs: seq<seq<char>>, size: nat) {
    && |bs| == |ps|
    && forall i: nat :: i < |ps| ==>
      ps[i].from <= ps[i].to <= |f| && ps[i].Length() <= size && bs[i] == Padded(f[ps[i].from..ps[i].to], size)
  }

  /** The buffers can be cut back to the lengths of their pieces. */
  ghost predicate Readable(ps: seq<Piece>, bs: seq<seq<char>>) {
    |ps| == |bs| && forall i: nat :: i < |ps| ==> 0 <= ps[i].Length() <= |bs[i]|
  }

  /** What a caller has in hand: the text in each buffer, and the newlines consumed between them. */
  ghost function TextOf(ps: seq<Piece>, bs: seq<seq<char>>): seq<char>
    requires Readable(ps, bs)
  {
    if ps == [] then []
    else bs[0][..ps[0].Length()] + (if ps[0].endsLine then ['\n'] else []) + TextOf(ps[1..], bs[1..])
  }

  /** Buffers that have been delivered hold the text of their pieces. */
  lemma {:induction false} BuffersHoldText(f: seq<char>, ps: seq<Piece>, bs: seq<seq<char>>, size: nat)
    requires Delivered(f, ps, bs, size)
    ensures Readable(ps, bs) && TextOf(ps, bs) == Join(f, ps)
    decreases |ps|
  {
    if ps != [] {
      var p := ps[0];
      assert bs[0][..p.Length()] == f[p.from..p.to];
      assert Delivered(f, ps[1..], bs[1..], size);
      BuffersHoldText(f, ps[1..], bs[1..], size);
    }
  }

  lemma DeliveredMore(f: seq<char>, ps: seq<Piece>, bs: seq<seq<char>>, size: nat, p: Piece, b: seq<char>)
    requires Delivered(f, ps, bs, size)
    requires p.from <= p.to <= |f| && p.Length() <= size && b == Padded(f[p.from..p.to], size)
    ensures Delivered(f, ps + [p], bs + [b], size)
  {
  }

  // ---------- zero-terminated buffers ----------

  lemma PaddedHasZero(text: seq<char>, size: nat)
    requires |text| <= size
    ensures '\0' in Padded(text, size) <==> |text| < size || '\0' in text
  {
    if |text| < size {
      assert Padded(text, size)[|text|] == '\0';
    } else {
      assert Padded(text, size) == text;
    }
  }

  /** Every buffer of the reading from `c` on holds a zero. */
  ghost predicate AllTerminated(f: seq<char>, c: nat, size: nat)
    requires c <= |f| && size > 0
    decreases |f| - c
  {
    c == |f| ||
    (var p := Cut(f, c, size);
     (p.Length() < size || '\0' in f[p.from..p.to]) && AllTerminated(f, p.Next(), size))
  }

  predicate ShortLines(f: seq<char>, c: nat, size: nat)
    requires c <= |f|
    decreases |f| - c
  {
    c == |f| ||
    (Newline(f, c) - c < size && (Newline(f, c) == |f| || ShortLines(f, Newline(f, c) + 1, size)))
  }

  /** In a file without zeros, every buffer is zero-terminated exactly when every line is shorter than the buffer. */
  lemma {:induction false} TerminatedIffShort(f: seq<char>, c: nat, size: nat)
    requires c <= |f| && size > 0 && '\0' !in f
    ensures AllTerminated(f, c, size) <==> ShortLines(f, c, size)
    decreases |f| - c
  {
    if c < |f| {
      var p := Cut(f, c, size);
      assert '\0' !in f[p.from..p.to];
      TerminatedIffShort(f, p.Next(), size);
    }
  }

  /** A line as long as the buffer leaves no zero in it. */
  lemma FullLineHasNoZero()
    ensures !AllTerminated("a", 0, 1)
    ensures Cut("a", 0, 1) == Piece(0, 1, false) && Padded("a", 1) == "a" && '\0' !in "a"
  {
    assert Newline("a", 1) == 1;
  }

  /** The condition on pieces is one on the buffers that receive them. */
  lemma {:induction false} TerminatedBuffers(f: seq<char>, c: nat, size: nat, bs: seq<seq<char>>)
    requires c <= |f| && size > 0 && Delivered(f, Pieces(f, c, size), bs, size)
    ensures AllTerminated(f, c, size) <==> forall i: nat :: i < |bs| ==> '\0' in bs[i]
    decreases |f| - c
  {
    if c < |f| {
      var p := Cut(f, c, size);
      var ps := Pieces(f, c, size);
      assert ps[0] == p && ps[1..] == Pieces(f, p.Next(), size);
      PaddedHasZero(f[p.from..p.to], size);
      TerminatedBuffers(f, p.Next(), size, bs[1..]);
      assert forall i: nat :: 0 < i < |bs| ==> bs[i] == bs[1..][i - 1];
    }
  }

  /** What a reading that has come to the end has delivered. */
  lemma ReadingIsWhole(f: seq<char>, c: nat, size: nat, ps: seq<Piece>, bs: seq<seq<char>>)
    requires c <= |f| && size > 0 && ps == Pieces(f, c, size) && Delivered(f, ps, bs, size)
    ensures |ps| == LineTotal(f, c, size) && Join(f, ps) == f[c..]
    ensures Readable(ps, bs) && TextOf(ps, bs) == f[c..]
    ensures '\0' !in f ==> ((forall i: nat :: i < |bs| ==> '\0' in bs[i]) <==> ShortLines(f, c, size))
  {
    CallsAddUp(f, c, size);
    PiecesRebuildFile(f, c, size);
    BuffersHoldText(f, ps, bs, size);
    TerminatedBuffers(f, c, size, bs);
    if '\0' !in f {
      TerminatedIffShort(f, c, size);
    }
  }

  // ---------- the index kept in an int ----------

  /** `(int)i`, for a 32-bit int. */
  function ToInt(i: nat): int {
    (i + 0x8000_0000) % 0x1_0000_0000 - 0x8000_0000
  }

  /** `last_ind` after the scan. */
  function LastInd(f: seq<char>, c: nat): int
    requires c <= |f|
  {
    if Newline(f, c) == |f| then -1 else ToInt(Newline(f, c))
  }

  /** The piece a call does deliver: its newline index went through an int, its length through size_t. */
  function CutByInt(f: seq<char>, c: nat, size: nat): (p: Piece)
    requires c < |f|
    ensures p.from == c
  {
    PieceTo(LastInd(f, c), c, |f|, size)
  }

  function PieceTo(lastInd: int, c: nat, len: nat, size: nat): (p: Piece)
    ensures p.from == c
  {
    if lastInd < 0 then Piece(c, len, false)
    else if (lastInd - c) % 0x1_0000_0000_0000_0000 > size then Piece(c, c + size, false)
    else Piece(c, lastInd, true)
  }

  /** The call copies inside the file and inside the buffer. */
  predicate InBounds(f: seq<char>, c: nat, size: nat)
    requires c < |f|
  {
    var p := CutByInt(f, c, size);
    p.from <= p.to <= |f| && p.Length() <= size
  }

  /** Below 2^31 the int does no harm, and the copies stay in bounds exactly when an unterminated tail fits. */
  lemma SmallIndexIsExact(f: seq<char>, c: nat, size: nat)
    requires c < |f| && (Newline(f, c) == |f| || Newline(f, c) < 0x8000_0000)
    ensures CutByInt(f, c, size) == Cut(f, c, size)
    ensures InBounds(f, c, size) <==> Fits(f, c, size)
  {
    var n := Newline(f, c);
    if n < |f| {
      SmallInt(n);
      SmallSize(n - c);
    }
  }

  lemma SmallInt(i: nat)
    requires i < 0x8000_0000
    ensures ToInt(i) == i
  {
  }

  lemma SmallSize(d: nat)
    requires d < 0x8000_0000
    ensures d % 0x1_0000_0000_0000_0000 == d
  {
  }

  /** The conversion to int wraps around. */
  lemma ToIntWraps(i: nat)
    ensures -0x8000_0000 <= ToInt(i) < 0x8000_0000
    ensures ToInt(i + 0x1_0000_0000) == ToInt(i)
  {
  }

  /** A newline whose index wraps to before the cursor: the rest of the file is taken whole, or one buffer of it. */
  lemma WrappedIndex(f: seq<char>, c: nat, size: nat)
    requires c < |f| < 0x8000_0000_0000_0000 && size < 0x8000_0000_0000_0000
    requires Newline(f, c) < |f| && LastInd(f, c) < c
    ensures CutByInt(f, c, size) == if LastInd(f, c) < 0 then Piece(c, |f|, false) else Piece(c, c + size, false)
  {
  }

  /** From 2^31 on the index is never itself. */
  lemma LargeIndexIsWrong(i: nat)
    ensures ToInt(i) == i <==> i < 0x8000_0000
  {
  }

  ghost predicate NewlinesFitInt(f: seq<char>, c: nat)
    requires c <= |f|
    decreases |f| - c
  {
    Newline(f, c) == |f| || (Newline(f, c) < 0x8000_0000 && NewlinesFitInt(f, Newline(f, c) + 1))
  }

  ghost predicate IntHarmless(f: seq<char>, c: nat, size: nat)
    requires c <= |f| && size > 0
    decreases |f| - c
  {
    c == |f| ||
    (CutByInt(f, c, size) == Cut(f, c, size) && IntHarmless(f, Cut(f, c, size).Next(), size))
  }

  /** The whole reading delivers what it is meant to exactly when no newline lies at 2^31 or beyond. */
  lemma {:induction false} HarmlessIffNewlinesFit(f: seq<char>, c: nat, size: nat)
    requires c <= |f| && size > 0
    ensures IntHarmless(f, c, size) <==> NewlinesFitInt(f, c)
    decreases |f| - c
  {
    if c < |f| {
      var n, p := Newline(f, c), Cut(f, c, size);
      HarmlessIffNewlinesFit(f, p.Next(), size);
      if n < |f| {
        CutCases(f, c, size);
        LargeIndexIsWrong(n);
        if n < 0x8000_0000 {
          SmallIndexIsExact(f, c, size);
        }
      }
    }
  }

  /** A single line whose newline lies at 2^31. */
  function FarNewline(): (f: seq<char>)
    ensures |f| == 0x8000_0001
  {
    seq(0x8000_0001, i => if i == 0x8000_0000 then '\n' else 'a')
  }

  /** Its newline is not seen: the first call takes the whole file for an unterminated tail. */
  lemma FarNewlineIsMissed(size: nat)
    requires 0 < size
    ensures Newline(FarNewline(), 0) == 0x8000_0000 && !IntHarmless(FarNewline(), 0, size)
    ensures CutByInt(FarNewline(), 0, size) == Piece(0, 0x8000_0001, false)
  {
    var f := FarNewline();
    NewlineIsFirst(f, 0);
    assert f[0x8000_0000] == '\n';
    assert Newline(f, 0) < |f| ==> f[Newline(f, 0)] == '\n';
    HarmlessIffNewlinesFit(FarNewline(), 0, size);
  }

  // ---------- a buffer of size 0 ----------

  /** Where `n` calls with a buffer of size 0 leave the cursor; a call that would overrun is not made. */
  function EmptyReads(f: seq<char>, c: nat, n: nat): (r: nat)
    requires c <= |f|
    ensures r <= |f|
    decreases n
  {
    if n == 0 || c == |f| || !InBounds(f, c, 0) then c
    else EmptyBufferSteps(f, c); EmptyReads(f, CutByInt(f, c, 0).Next(), n - 1)
  }

  /** Through a buffer of size 0 a call moves past an empty line, or not at all. */
  lemma EmptyBufferSteps(f: seq<char>, c: nat)
    requires c < |f| && InBounds(f, c, 0)
    ensures Newline(f, c) < |f|
    ensures CutByInt(f, c, 0).Next() == if LastInd(f, c) == c then c + 1 else c
    ensures Newline(f, c) < 0x8000_0000 ==> (LastInd(f, c) == c <==> f[c] == '\n')
  {
    if Newline(f, c) < 0x8000_0000 {
      SmallIndexIsExact(f, c, 0);
    }
  }

  /** At a character other than a newline the cursor stays, however often the caller tries. */
  lemma {:induction false} EmptyBufferStays(f: seq<char>, c: nat, n: nat)
    requires c < |f| && NewlinesFitInt(f, c) && f[c] != '\n'
    ensures EmptyReads(f, c, n) == c
  {
    if n > 0 && InBounds(f, c, 0) {
      EmptyBufferSteps(f, c);
      EmptyBufferStays(f, c, n - 1);
    }
  }

  lemma NewlineStep(f: seq<char>, c: nat)
    requires c < |f| && NewlinesFitInt(f, c) && f[c] == '\n'
    ensures NewlinesFitInt(f, c + 1) && InBounds(f, c, 0) && CutByInt(f, c, 0).Next() == c + 1
  {
    assert Newline(f, c) == c;
    SmallIndexIsExact(f, c, 0);
  }

  lemma NewlineByNewline(f: seq<char>, c: nat, n: nat)
    requires c < |f| && NewlinesFitInt(f, c) && f[c] == '\n' && n > 0
    ensures NewlinesFitInt(f, c + 1) && EmptyReads(f, c, n) == EmptyReads(f, c + 1, n - 1)
  {
    NewlineStep(f, c);
  }

  predicate OnlyNewlines(s: seq<char>) {
    forall i: nat :: i < |s| ==> s[i] == '\n'
  }

  lemma OnlyNewlinesStep(f: seq<char>, c: nat)
    requires c < |f|
    ensures OnlyNewlines(f[c..]) <==> f[c] == '\n' && OnlyNewlines(f[c + 1..])
  {
    assert f[c..] == [f[c]] + f[c + 1..];
  }

  /** A caller who reads with a buffer of size 0 comes to the end exactly when only newlines are left. */
  lemma {:induction false} EmptyBufferSticks(f: seq<char>, c: nat, n: nat)
    requires c <= |f| && NewlinesFitInt(f, c) && n >= |f| - c
    ensures EmptyReads(f, c, n) == |f| <==> OnlyNewlines(f[c..])
    decreases n
  {
    if c == |f| {
      return;
    }
    OnlyNewlinesStep(f, c);
    if f[c] != '\n' {
      EmptyBufferStays(f, c, n);
      return;
    }
    NewlineByNewline(f, c, n);
    EmptyBufferSticks(f, c + 1, n - 1);
  }

  // ---------- the cursor ----------

  /** From `c` on every call is in bounds and delivers what it is meant to. */
  ghost predicate Smooth(f: seq<char>, c: nat, size: nat)
    requires c <= |f| && size > 0
  {
    AllFit(f, c, size) && IntHarmless(f, c, size)
  }

  lemma OneMorePiece(f: seq<char>, c: nat, size: nat, ps: seq<Piece>)
    requires c < |f| && size > 0 && Smooth(f, c, size)
    ensures InBounds(f, c, size) && CutByInt(f, c, size) == Cut(f, c, size)
    ensures var p := Cut(f, c, size);
      Smooth(f, p.Next(), size) && ps + Pieces(f, c, size) == (ps + [p]) + Pieces(f, p.Next(), size)
  {
    Reassociate(ps, [Cut(f, c, size)], Pieces(f, Cut(f, c, size).Next(), size));
  }

  class FileParser {
    const file: array<char>
    var line: nat
    var cursor: nat

    constructor (file: array<char>)
      ensures this.file == file && line == 0 && cursor == 0
    {
      this.file := file;
      line, cursor := 0, 0;
    }

    method NextLine(buffer: array<char>, size: nat) returns (more: bool)
      requires size <= buffer.Length && buffer != file
      requires cursor <= file.Length && (cursor < file.Length ==> InBounds(file[..], cursor, size))
      modifies this`line, this`cursor, buffer
      ensures more == (old(cursor) < file.Length)
      ensures !more ==> cursor == old(cursor) && line == old(line) && buffer[..] == old(buffer[..])
      ensures more ==>
        var p := CutByInt(file[..], old(cursor), size);
        && cursor == p.Next() && line == old(line) + 1
        && (forall k: nat :: k < size ==> buffer[k] == if k < p.Length() then file[p.from + k] else '\0')
        && buffer[..size] == Padded(file[p.from..p.to], size)
        && buffer[size..] == old(buffer[size..])
    {
      if cursor >= file.Length {
        return false;
      }
      ghost var f := file[..];
      forall k | 0 <= k < size {
        buffer[k] := '\0';
      }
      assert file[..] == f;
      var lastInd := FindNewline();
      line := line + 1;
      Deliver(buffer, size, lastInd);
      ghost var p := CutByInt(f, old(cursor), size);
      PaddedAt(f, p.from, p.to, size, buffer[..size]);
      return true;
    }

    /** The three cases of `NextLine`: no newline in sight, one too far away, one within reach. */
    method Deliver(buffer: array<char>, size: nat, lastInd: int)
      requires size <= buffer.Length && buffer != file && forall k: nat :: k < size ==> buffer[k] == '\0'
      requires var p := PieceTo(lastInd, cursor, file.Length, size); cursor <= p.to <= file.Length && p.Length() <= size
      modifies this`cursor, buffer
      ensures var p := PieceTo(lastInd, old(cursor), file.Length, size);
        && cursor == p.Next()
        && buffer[..size] == Padded(file[p.from..p.to], size)
        && buffer[size..] == old(buffer[size..])
    {
      if lastInd < 0 {
        CopyTo(buffer, file.Length - cursor, size);
        cursor := file.Length;
      } else if (lastInd - cursor) % 0x1_0000_0000_0000_0000 > size {
        CopyTo(buffer, size, size);
        cursor := cursor + size;
      } else {
        CopyTo(buffer, lastInd - cursor, size);
        cursor := lastInd + 1;
      }
    }

    /** One call of a smooth reading, added to the record of what has been delivered. */
    method ReadOne(buffer: array<char>, size: nat, ghost ps: seq<Piece>, ghost bs: seq<seq<char>>)
        returns (more: bool, ghost pieces: seq<Piece>, ghost buffers: seq<seq<char>>)
      requires 0 < size <= buffer.Length && buffer != file
      requires cursor <= file.Length && Smooth(file[..], cursor, size) && Delivered(file[..], ps, bs, size)
      modifies this`line, this`cursor, buffer
      ensures old(cursor) <= cursor <= file.Length && file[..] == old(file[..])
      ensures more == (old(cursor) < file.Length) && (more ==> old(cursor) < cursor)
      ensures Smooth(file[..], cursor, size) && Delivered(file[..], pieces, buffers, size)
      ensures pieces + Pieces(file[..], cursor, size) == ps + Pieces(file[..], old(cursor), size)
      ensures line == old(line) + |pieces| - |ps|
    {
      ghost var f, c := file[..], cursor;
      if c < |f| {
        OneMorePiece(f, c, size, ps);
      }
      pieces, buffers := ps, bs;
      more := NextLine(buffer, size);
      assert file[..] == f;
      if more {
        DeliveredMore(f, ps, bs, size, Cut(f, c, size), buffer[..size]);
        pieces, buffers := ps + [Cut(f, c, size)], bs + [buffer[..size]];
      }
    }

    /** A caller's loop, with what each call delivered: the pieces of the file, padded, one line number each. */
    method ReadAll(buffer: array<char>, size: nat) returns (ghost pieces: seq<Piece>, ghost buffers: seq<seq<char>>)
      requires 0 < size <= buffer.Length && buffer != file
      requires cursor <= file.Length && NewlinesFitInt(file[..], cursor)
      requires file.Length - TailStart(file[..], cursor) <= size
      modifies this`line, this`cursor, buffer
      ensures cursor == file.Length && line == old(line) + LineTotal(file[..], old(cursor), size)
      ensures pieces == Pieces(file[..], old(cursor), size) && Join(file[..], pieces) == file[old(cursor)..]
      ensures Delivered(file[..], pieces, buffers, size)
      ensures Readable(pieces, buffers) && TextOf(pieces, buffers) == file[old(cursor)..]
      ensures '\0' !in file[..] ==>
        ((forall i: nat :: i < |buffers| ==> '\0' in buffers[i]) <==> ShortLines(file[..], old(cursor), size))
    {
      ghost var f, c, all := file[..], cursor, Pieces(file[..], cursor, size);
      AllFitIffTailFits(f, cursor, size);
      HarmlessIffNewlinesFit(f, cursor, size);
      pieces, buffers := [], [];
      var more := true;
      while more
        invariant cursor <= |f| && file[..] == f && Smooth(f, cursor, size)
        invariant Delivered(f, pieces, buffers, size) && pieces + Pieces(f, cursor, size) == all
        invariant line == old(line) + |pieces|
        invariant !more ==> cursor == |f|
        decreases |f| - cursor, more
      {
        more, pieces, buffers := ReadOne(buffer, size, pieces, buffers);
      }
      assert pieces == all;
      ReadingIsWhole(f, c, size, pieces, buffers);
    }

    /** The scan for the next newline, whose index is kept in an int; -1 if there is none. */
    method FindNewline() returns (lastInd: int)
      requires cursor <= file.Length
      ensures lastInd == LastInd(file[..], cursor)
    {
      lastInd := -1;
      for i := cursor to file.Length
        invariant Newline(file[..], i) == Newline(file[..], cursor)
        invariant lastInd == -1
      {
        if file[i] == '\n' {
          lastInd := ToInt(i);
          break;
        }
      }
    }

    /** memcpy from the cursor into a cleared buffer. */
    method CopyTo(buffer: array<char>, n: nat, ghost size: nat)
      requires n <= size <= buffer.Length && cursor + n <= file.Length && buffer != file
      requires forall k: nat :: k < size ==> buffer[k] == '\0'
      modifies buffer
      ensures buffer[..size] == Padded(file[cursor..cursor + n], size) && buffer[size..] == old(buffer[size..])
    {
      forall k | 0 <= k < n {
        buffer[k] := file[cursor + k];
      }
    }
  }
}
