/** The five scanline filters of PNG (sections 6.2 to 6.6 of RFC 2083) and how the reader undoes
    them in place. A row is the byte string of one scanline without its filter byte. */
module PngFilter {
  import opened Integers
  import opened Bytes

  function Paeth(a: int, b: int, c: int): (r: int)
    ensures r == a || r == b || r == c
  {
    var p := a + b - c;
    var (pa, pb, pc) := (Abs(p - a), Abs(p - b), Abs(p - c));
    if pa <= pb && pa <= pc then a else if pb <= pc then b else c
  }

  /** The predictor picks a neighbour nearest to a + b - c; ties go to a, then to b. */
  lemma PaethNearest(a: int, b: int, c: int)
    ensures var (p, r) := (a + b - c, Paeth(a, b, c));
            && Abs(p - r) <= Abs(p - a) && Abs(p - r) <= Abs(p - b) && Abs(p - r) <= Abs(p - c)
            && (Abs(p - a) == Abs(p - r) ==> r == a)
            && (Abs(p - b) == Abs(p - r) ==> r == a || r == b)
  {
  }

  type Filter = f: int | 0 <= f <= 4

  /** The byte a filter predicts from its left, upper and upper left neighbours. */
  function Predict(f: Filter, a: byte, b: byte, c: byte): byte {
    if f == 0 then 0
    else if f == 1 then a
    else if f == 2 then b
    else if f == 3 then ((a as int) + b) / 2
    else Paeth(a, b, c)
  }

  /** The byte bpp positions to the left, zero at the start of the row. */
  function Left(row: bytes, i: nat, bpp: nat): byte
    requires bpp > 0 && i - bpp < |row|
  {
    if i < bpp then 0 else row[i - bpp]
  }

  function Add(a: int, b: int): byte { (a + b) % 256 }

  function Sub(a: int, b: int): byte { (a - b) % 256 }

  /** The filtered form of a row, every byte predicted from the true neighbours. */
  function Apply(f: Filter, row: bytes, prev: bytes, bpp: nat): (r: bytes)
    requires bpp > 0 && |row| == |prev|
    ensures |r| == |row|
  {
    seq(|row|, i requires 0 <= i < |row| => Sub(row[i], Predict(f, Left(row, i, bpp), prev[i], Left(prev, i, bpp))))
  }

  /** The first n bytes of a row recovered from its filtered form, left to right. */
  function Undo(f: Filter, raw: bytes, prev: bytes, bpp: nat, n: nat): (r: bytes)
    requires bpp > 0 && |raw| == |prev| && n <= |raw|
    ensures |r| == n
  {
    if n == 0 then []
    else
      var r := Undo(f, raw, prev, bpp, n - 1);
      r + [Add(raw[n - 1], Predict(f, Left(r, n - 1, bpp), prev[n - 1], Left(prev, n - 1, bpp)))]
  }

  lemma AddSub(a: byte, b: byte)
    ensures Add(Sub(a, b), b) == a && Sub(Add(a, b), b) == a
  {
    Wrapped(a - b, if a - b < 0 then -1 else 0);
    Wrapped(a + b, if a + b >= 256 then 1 else 0);
    Wrapped(Sub(a, b) + b, if a - b < 0 then 1 else 0);
    Wrapped(Add(a, b) - b, if a + b >= 256 then -1 else 0);
  }

  lemma Wrapped(n: int, q: int)
    requires 0 <= n - q * 256 < 256
    ensures n % 256 == n - q * 256
  {
  }

  /** Undoing a filter gives the row back, for every filter and every previous row. */
  lemma {:induction false} UndoApply(f: Filter, row: bytes, prev: bytes, bpp: nat, n: nat)
    requires bpp > 0 && |row| == |prev| && n <= |row|
    ensures Undo(f, Apply(f, row, prev, bpp), prev, bpp, n) == row[..n]
  {
    hide Predict;
    if n > 0 {
      var i := n - 1;
      UndoApply(f, row, prev, bpp, i);
      assert Left(row[..i], i, bpp) == Left(row, i, bpp);
      AddSub(row[i], Predict(f, Left(row, i, bpp), prev[i], Left(prev, i, bpp)));
      assert row[..n] == row[..i] + [row[i]];
    }
  }

  /** And filtering what was recovered gives the filtered form back: the filters lose nothing. */
  lemma ApplyUndo(f: Filter, raw: bytes, prev: bytes, bpp: nat)
    requires bpp > 0 && |raw| == |prev|
    ensures Apply(f, Undo(f, raw, prev, bpp, |raw|), prev, bpp) == raw
  {
    hide Predict;
    var row := Undo(f, raw, prev, bpp, |raw|);
    forall i | 0 <= i < |raw|
      ensures Apply(f, row, prev, bpp)[i] == raw[i]
    {
      UndoPrefix(f, raw, prev, bpp, i, |raw|);
      UndoPrefix(f, raw, prev, bpp, i + 1, |raw|);
      var before := Undo(f, raw, prev, bpp, i);
      assert row[i] == Undo(f, raw, prev, bpp, i + 1)[i];
      assert Left(before, i, bpp) == Left(row, i, bpp);
      AddSub(raw[i], Predict(f, Left(row, i, bpp), prev[i], Left(prev, i, bpp)));
    }
  }

  lemma {:induction false} UndoPrefix(f: Filter, raw: bytes, prev: bytes, bpp: nat, k: nat, n: nat)
    requires bpp > 0 && |raw| == |prev| && k <= n <= |raw|
    ensures Undo(f, raw, prev, bpp, n)[..k] == Undo(f, raw, prev, bpp, k)
    decreases n
  {
    hide Predict;
    if k < n {
      UndoPrefix(f, raw, prev, bpp, k, n - 1);
    }
  }

  /** Filters that look to the left only leave the first pixel as it is. */
  lemma {:induction false} UndoHead(f: Filter, raw: bytes, prev: bytes, bpp: nat, n: nat)
    requires bpp > 0 && |raw| == |prev| && n <= |raw| && n <= bpp && f <= 1
    ensures Undo(f, raw, prev, bpp, n) == raw[..n]
  {
    if n > 0 {
      UndoHead(f, raw, prev, bpp, n - 1);
      assert raw[..n] == raw[..n - 1] + [raw[n - 1]];
    }
  }

  lemma {:induction false} UndoNone(raw: bytes, prev: bytes, bpp: nat, n: nat)
    requires bpp > 0 && |raw| == |prev| && n <= |raw|
    ensures Undo(0, raw, prev, bpp, n) == raw[..n]
  {
    if n > 0 {
      UndoNone(raw, prev, bpp, n - 1);
      assert raw[..n] == raw[..n - 1] + [raw[n - 1]];
    }
  }

  // ---- what a defiltered byte is ------------------------------------------------------

  /** p is half of a sum, rounded down. */
  predicate Halved(p: int, sum: int) { 2 * p <= sum < 2 * p + 2 }

  function Apart(p: int, q: int): int { if p < q then q - p else p - q }

  /** p is the neighbour nearest to a + b - c; between equally near ones a comes first, then b. */
  predicate Nearest(p: int, a: int, b: int, c: int) {
    var to := a + b - c;
    && (p == a || p == b || p == c)
    && Apart(p, to) <= Apart(a, to) && Apart(p, to) <= Apart(b, to) && Apart(p, to) <= Apart(c, to)
    && (Apart(a, to) == Apart(p, to) ==> p == a)
    && (Apart(b, to) == Apart(p, to) ==> p == a || p == b)
  }

  /** The prediction of a filter type from the left, upper and upper left neighbours. */
  predicate Predicts(ftype: int, p: int, a: int, b: int, c: int) {
    match ftype
    case 0 => p == 0
    case 1 => p == a
    case 2 => p == b
    case 3 => Halved(p, a + b)
    case 4 => Nearest(p, a, b, c)
    case _ => false
  }

  /** Byte i of a row is its filtered form and the prediction, added modulo 256. */
  ghost predicate DefilteredAt(ftype: int, raw: bytes, prev: bytes, row: bytes, bpp: nat, i: nat)
    requires |raw| == |prev| == |row| && i < |row|
  {
    var a := if i < bpp then 0 else row[i - bpp];
    var c := if i < bpp then 0 else prev[i - bpp];
    exists p: int :: Predicts(ftype, p, a, prev[i], c) && row[i] == ((raw[i] as int) + p) % 256
  }

  ghost predicate Defiltered(ftype: int, raw: bytes, prev: bytes, row: bytes, bpp: nat) {
    |raw| == |prev| == |row| && forall i :: 0 <= i < |row| ==> DefilteredAt(ftype, raw, prev, row, bpp, i)
  }

  lemma PredictsIs(f: Filter, p: int, a: byte, b: byte, c: byte)
    ensures Predicts(f, p, a, b, c) <==> p == Predict(f, a, b, c)
  {
    PaethNearest(a, b, c);
  }

  /** A row is the defiltered form of its raw bytes exactly when every byte is. */
  lemma DefilteredExactly(f: Filter, raw: bytes, prev: bytes, row: bytes, bpp: nat)
    requires bpp > 0 && |raw| == |prev|
    ensures Defiltered(f, raw, prev, row, bpp) <==> row == Undo(f, raw, prev, bpp, |raw|)
  {
    hide Predict, Predicts;
    var r := Undo(f, raw, prev, bpp, |raw|);
    forall i | 0 <= i < |raw|
      ensures DefilteredAt(f, raw, prev, r, bpp, i)
    {
      UndoByte(f, raw, prev, r, bpp, i);
    }
    if Defiltered(f, raw, prev, row, bpp) {
      SameRows(f, raw, prev, row, bpp, |raw|);
      assert row[..|raw|] == row;
    }
  }

  /** Byte i of a recovered row, from the row's own bytes. */
  lemma UndoneByte(f: Filter, raw: bytes, prev: bytes, row: bytes, bpp: nat, i: nat)
    requires bpp > 0 && |raw| == |prev| && i < |raw| && row == Undo(f, raw, prev, bpp, |raw|)
    ensures row[i] == Add(raw[i], Predict(f, Left(row, i, bpp), prev[i], Left(prev, i, bpp)))
  {
    hide Predict, Add;
    UndoPrefix(f, raw, prev, bpp, i, |raw|);
    UndoPrefix(f, raw, prev, bpp, i + 1, |raw|);
    var (before, after) := (Undo(f, raw, prev, bpp, i), Undo(f, raw, prev, bpp, i + 1));
    assert after == before + [Add(raw[i], Predict(f, Left(before, i, bpp), prev[i], Left(prev, i, bpp)))];
    hide Undo;
    assert row[i] == row[..i + 1][i];
    assert i >= bpp ==> row[i - bpp] == row[..i][i - bpp];
  }

  lemma UndoByte(f: Filter, raw: bytes, prev: bytes, row: bytes, bpp: nat, i: nat)
    requires bpp > 0 && |raw| == |prev| && i < |raw| && row == Undo(f, raw, prev, bpp, |raw|)
    ensures DefilteredAt(f, raw, prev, row, bpp, i)
  {
    hide Predict, Undo;
    UndoneByte(f, raw, prev, row, bpp, i);
    var (a, c) := (Left(row, i, bpp), Left(prev, i, bpp));
    PredictsIs(f, Predict(f, a, prev[i], c), a, prev[i], c);
    ByteFrom(f, raw, prev, row, bpp, i, Predict(f, a, prev[i], c));
  }

  lemma ByteFrom(f: int, raw: bytes, prev: bytes, row: bytes, bpp: nat, i: nat, p: int)
    requires bpp > 0 && |raw| == |prev| == |row| && i < |raw|
    requires Predicts(f, p, Left(row, i, bpp), prev[i], Left(prev, i, bpp)) && row[i] == Add(raw[i], p)
    ensures DefilteredAt(f, raw, prev, row, bpp, i)
  {
    hide Predicts;
    var a := if i < bpp then 0 else row[i - bpp];
    var c := if i < bpp then 0 else prev[i - bpp];
    assert a == Left(row, i, bpp) && c == Left(prev, i, bpp);
    assert Predicts(f, p, a, prev[i], c) && row[i] == ((raw[i] as int) + p) % 256;
  }

  lemma {:induction false} SameRows(f: Filter, raw: bytes, prev: bytes, row: bytes, bpp: nat, n: nat)
    requires bpp > 0 && Defiltered(f, raw, prev, row, bpp) && n <= |raw|
    ensures row[..n] == Undo(f, raw, prev, bpp, n)
  {
    hide Predict, Predicts;
    if n > 0 {
      var i := n - 1;
      SameRows(f, raw, prev, row, bpp, i);
      assert DefilteredAt(f, raw, prev, row, bpp, i);
      DefilteredByte(f, raw, prev, row, bpp, i);
      assert Left(row[..i], i, bpp) == Left(row, i, bpp);
      assert row[..n] == row[..i] + [row[i]];
    }
  }

  lemma DefilteredByte(f: Filter, raw: bytes, prev: bytes, row: bytes, bpp: nat, i: nat)
    requires bpp > 0 && |raw| == |prev| == |row| && i < |row| && DefilteredAt(f, raw, prev, row, bpp, i)
    ensures row[i] == Add(raw[i], Predict(f, Left(row, i, bpp), prev[i], Left(prev, i, bpp)))
  {
    hide Predict, Predicts;
    var (a, b, c) := (Left(row, i, bpp), prev[i], Left(prev, i, bpp));
    var p :| Predicts(f, p, a, b, c) && row[i] == ((raw[i] as int) + p) % 256;
    PredictsIs(f, p, a, b, c);
  }

  // ---- the reader's loops -------------------------------------------------------------

  /** One scanline of the reader: the row array is overwritten with the recovered bytes. */
  method UndoRow(ftype: int, row: array<byte>, prev: array<byte>, channels: nat) returns (ok: bool)
    requires channels > 0 && row.Length == prev.Length && row != prev
    modifies row
    ensures ok == (0 <= ftype <= 4)
    ensures ok ==> row[..] == Undo(ftype, old(row[..]), prev[..], channels, row.Length)
    ensures ok ==> Defiltered(ftype, old(row[..]), prev[..], row[..], channels)
  {
    hide Defiltered;
    ghost var raw, up := row[..], prev[..];
    if ftype == 1 {
      UndoSub(row, prev, channels);
    } else if ftype == 2 {
      UndoUp(row, prev, channels);
    } else if ftype == 3 {
      UndoAverage(row, prev, channels);
    } else if ftype == 4 {
      UndoPaeth(row, prev, channels);
    } else if ftype != 0 {
      return false;
    } else {
      UndoNone(raw, up, channels, row.Length);
      assert raw[..row.Length] == raw;
    }
    DefilteredExactly(ftype, raw, up, row[..], channels);
    ok := true;
  }

  /** The bytes before i are recovered, the others still filtered. */
  ghost predicate Undone(f: Filter, row: array<byte>, raw: bytes, prev: bytes, bpp: nat, i: nat)
    requires bpp > 0
    reads row
  {
    && row.Length == |raw| == |prev| && i <= |raw|
    && row[..i] == Undo(f, raw, prev, bpp, i)
    && row[i..] == raw[i..]
  }

  method UndoSub(row: array<byte>, prev: array<byte>, channels: nat)
    requires channels > 0 && row.Length == prev.Length && row != prev
    modifies row
    ensures row[..] == Undo(1, old(row[..]), prev[..], channels, row.Length)
  {
    ghost var raw := row[..];
    var i := if channels <= row.Length then channels else row.Length;
    UndoHead(1, raw, prev[..], channels, i);
    while i < row.Length
      invariant i <= row.Length && (i >= channels || i == row.Length)
      invariant Undone(1, row, raw, prev[..], channels, i)
    {
      Stale(1, row, raw, prev[..], channels, i);
      row[i] := Add(row[i], row[i - channels]);
      i := i + 1;
    }
    assert row[..] == row[..row.Length];
  }

  method UndoUp(row: array<byte>, prev: array<byte>, channels: nat)
    requires channels > 0 && row.Length == prev.Length && row != prev
    modifies row
    ensures row[..] == Undo(2, old(row[..]), prev[..], channels, row.Length)
  {
    ghost var raw := row[..];
    for i := 0 to row.Length
      invariant Undone(2, row, raw, prev[..], channels, i)
    {
      Stale(2, row, raw, prev[..], channels, i);
      row[i] := Add(row[i], prev[i]);
    }
    assert row[..] == row[..row.Length];
  }

  method UndoAverage(row: array<byte>, prev: array<byte>, channels: nat)
    requires channels > 0 && row.Length == prev.Length && row != prev
    modifies row
    ensures row[..] == Undo(3, old(row[..]), prev[..], channels, row.Length)
  {
    ghost var raw := row[..];
    for i := 0 to row.Length
      invariant Undone(3, row, raw, prev[..], channels, i)
    {
      Stale(3, row, raw, prev[..], channels, i);
      var a: int := if i >= channels then row[i - channels] else 0;
      row[i] := Add(row[i], (a + prev[i]) / 2);
    }
    assert row[..] == row[..row.Length];
  }

  method UndoPaeth(row: array<byte>, prev: array<byte>, channels: nat)
    requires channels > 0 && row.Length == prev.Length && row != prev
    modifies row
    ensures row[..] == Undo(4, old(row[..]), prev[..], channels, row.Length)
  {
    hide Paeth;
    ghost var raw := row[..];
    for i := 0 to row.Length
      invariant Undone(4, row, raw, prev[..], channels, i)
    {
      Stale(4, row, raw, prev[..], channels, i);
      var a := if i >= channels then row[i - channels] else 0;
      var b := prev[i];
      var c := if i >= channels then prev[i - channels] else 0;
      row[i] := Add(row[i], Paeth(a, b, c));
    }
    assert row[..] == row[..row.Length];
  }

  /** What an in-place step reads: its own byte still filtered, the left one already recovered. */
  lemma Stale(f: Filter, row: array<byte>, raw: bytes, prev: bytes, bpp: nat, i: nat)
    requires bpp > 0 && Undone(f, row, raw, prev, bpp, i) && i < row.Length
    ensures row[i] == raw[i]
    ensures Left(Undo(f, raw, prev, bpp, i), i, bpp) == if i >= bpp then row[i - bpp] else 0
  {
    assert row[i..][0] == raw[i..][0];
    assert i >= bpp ==> row[..i][i - bpp] == row[i - bpp];
  }
}
