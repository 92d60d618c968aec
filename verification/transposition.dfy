/**
 * The value-level meaning of the Encryptor: what one grid fill/read does to a
 * block, what encryptMessage and decryptMessage return for a whole message,
 * including the two ways decryptMessage fails with an out-of-bounds error.
 * The class in encryptor.dfy is proved to compute exactly these functions.
 */
module Transposition {
  import opened GridIndex

  /** The padding character appended to short blocks and messages. */
  const Filler: char := 'A'

  /** The result of decryptMessage: a string, or the StringIndexOutOfBoundsException it throws. */
  datatype Outcome = Ok(value: seq<char>) | OutOfBounds

  /** `n` copies of the filler character. */
  function Fillers(n: nat): (r: seq<char>)
    ensures |r| == n
    ensures forall i :: 0 <= i < n ==> r[i] == Filler
  {
    seq(n, _ => Filler)
  }

  /**
   * The block fillBlock lays into the grid: `str` cut to `area` characters,
   * or padded with the filler up to `area` characters.
   */
  function BlockOf(str: seq<char>, area: nat): (b: seq<char>)
    ensures |b| == area
    ensures |str| == area ==> b == str
    ensures forall i :: 0 <= i < area && i < |str| ==> b[i] == str[i]
    ensures forall i :: |str| <= i < area ==> b[i] == Filler
  {
    if |str| < area then str + Fillers(area - |str|) else str[..area]
  }

  /** Block number `k` (from 0) of `s`, when `s` is cut into blocks of `area` characters. */
  function BlockAt(s: seq<char>, area: nat, k: nat): seq<char>
    requires (k + 1) * area <= |s|
  {
    MulMonotone(k, k + 1, area);
    s[k * area .. (k + 1) * area]
  }

  /**
   * One block written into a rows x cols grid in row-major order and read back
   * in column-major order (TransposeAt says where each cell goes).
   */
  function Transpose(block: seq<char>, rows: nat, cols: nat): (r: seq<char>)
    requires 1 <= rows && 1 <= cols && |block| == rows * cols
    ensures |r| == rows * cols
  {
    ReadColumns(block, rows, cols, rows * cols)
  }

  /**
   * The first n characters of the column-major read: character k is the cell
   * in row k % rows and column k / rows.
   */
  function ReadColumns(block: seq<char>, rows: nat, cols: nat, n: nat): (r: seq<char>)
    requires 1 <= rows && 1 <= cols && |block| == rows * cols && n <= rows * cols
    ensures |r| == n
    decreases n
  {
    if n == 0 then []
    else
      ColMajorSplit(n - 1, rows, cols);
      RowMajorInRange((n - 1) % rows, (n - 1) / rows, rows, cols);
      ReadColumns(block, rows, cols, n - 1) + [block[RowMajor((n - 1) % rows, (n - 1) / rows, cols)]]
  }

  /** Character k of the read comes from the cell in row k % rows and column k / rows. */
  lemma {:induction false} ReadColumnsAt(block: seq<char>, rows: nat, cols: nat, n: nat, k: int)
    requires 1 <= rows && 1 <= cols && |block| == rows * cols && n <= rows * cols && 0 <= k < n
    ensures 0 <= RowMajor(k % rows, k / rows, cols) < rows * cols
    ensures ReadColumns(block, rows, cols, n)[k] == block[RowMajor(k % rows, k / rows, cols)]
    decreases n
  {
    ColMajorSplit(k, rows, cols);
    RowMajorInRange(k % rows, k / rows, rows, cols);
    if k < n - 1 {
      ReadColumnsAt(block, rows, cols, n - 1, k);
    }
  }

  /** The cell in row `row` and column `col` is read at position col*rows + row. */
  lemma TransposeAt(block: seq<char>, rows: nat, cols: nat, row: int, col: int)
    requires 1 <= rows && 1 <= cols && |block| == rows * cols
    requires 0 <= row < rows && 0 <= col < cols
    ensures 0 <= ColMajor(row, col, rows) < rows * cols
    ensures 0 <= RowMajor(row, col, cols) < rows * cols
    ensures Transpose(block, rows, cols)[ColMajor(row, col, rows)] == block[RowMajor(row, col, cols)]
  {
    ColMajorInRange(row, col, rows, cols);
    RowMajorInRange(row, col, rows, cols);
    ColMajorParts(row, col, rows);
    ReadColumnsAt(block, rows, cols, rows * cols, ColMajor(row, col, rows));
  }

  /**
   * `r` is `block` laid row-major into a rows x cols grid and read back
   * column-major: cell (row, col) sits at row*cols+col in `block` and at
   * col*rows+row in `r`.
   */
  ghost predicate ColumnMajorRead(block: seq<char>, rows: nat, cols: nat, r: seq<char>)
    requires |block| == rows * cols && |r| == rows * cols
  {
    CellsInRange(rows, cols);
    forall row, col :: 0 <= row < rows && 0 <= col < cols ==>
      r[ColMajor(row, col, rows)] == block[RowMajor(row, col, cols)]
  }

  /** Transpose is exactly the column-major read of the block, and nothing else is. */
  lemma TransposeCharacterized(block: seq<char>, rows: nat, cols: nat, r: seq<char>)
    requires 1 <= rows && 1 <= cols && |block| == rows * cols && |r| == rows * cols
    ensures ColumnMajorRead(block, rows, cols, r) <==> r == Transpose(block, rows, cols)
  {
    var t := Transpose(block, rows, cols);
    CellsInRange(rows, cols);
    if ColumnMajorRead(block, rows, cols, r) {
      forall k | 0 <= k < rows * cols
        ensures r[k] == t[k]
      {
        ColMajorSplit(k, rows, cols);
        TransposeAt(block, rows, cols, k % rows, k / rows);
      }
    }
    if r == t {
      forall row, col | 0 <= row < rows && 0 <= col < cols
        ensures r[ColMajor(row, col, rows)] == block[RowMajor(row, col, cols)]
      {
        TransposeAt(block, rows, cols, row, col);
      }
    }
  }

  /**
   * Reading a rows x cols grid column-major is undone by the same read on the
   * transposed cols x rows grid.
   */
  lemma TransposeInverse(block: seq<char>, rows: nat, cols: nat)
    requires 1 <= rows && 1 <= cols && |block| == rows * cols
    ensures Transpose(Transpose(block, rows, cols), cols, rows) == block
  {
    var t := Transpose(block, rows, cols);
    var u := Transpose(t, cols, rows);
    forall k | 0 <= k < rows * cols
      ensures u[k] == block[k]
    {
      RowMajorSplit(k, rows, cols);
      var row, col := k / cols, k % cols;
      TransposeAt(block, rows, cols, row, col);
      TransposeAt(t, cols, rows, col, row);
    }
  }

  /**
   * The column-major reads of the whole blocks of `s`, in block order: the
   * loop shared by encryptMessage and decryptMessage. A trailing partial
   * block is not read.
   */
  function TransposeBlocks(s: seq<char>, rows: nat, cols: nat): (r: seq<char>)
    requires 1 <= rows && 1 <= cols
    ensures |r| <= |s| < |r| + rows * cols
    decreases |s|
  {
    if |s| < rows * cols then []
    else Transpose(s[..rows * cols], rows, cols) + TransposeBlocks(s[rows * cols..], rows, cols)
  }

  /** Slices whose bounds are equal are equal. */
  lemma SameSlice(s: seq<char>, from: int, start: int, to: int)
    requires 0 <= from == start <= to <= |s|
    ensures s[from..to] == s[start..to]
  {
  }

  /**
   * One round of the block loop: when `acc` followed by the reads from
   * position `from` on is the whole read, so is `acc` with the read of the
   * block at `from` appended, followed by the reads after that block.
   */
  lemma BlockRound(s: seq<char>, rows: nat, cols: nat, from: nat, to: nat, acc: seq<char>)
    requires 1 <= rows && 1 <= cols && to == from + rows * cols && to <= |s|
    requires acc + TransposeBlocks(s[from..], rows, cols) == TransposeBlocks(s, rows, cols)
    ensures acc + Transpose(s[from..to], rows, cols) + TransposeBlocks(s[to..], rows, cols)
            == TransposeBlocks(s, rows, cols)
  {
    assert s[from..][..rows * cols] == s[from..to];
    assert s[from..][rows * cols..] == s[to..];
  }

  /** When less than a block is left from `done` on, the loop has read every whole block. */
  lemma BlocksDone(s: seq<char>, rows: nat, cols: nat, done: nat, acc: seq<char>)
    requires 1 <= rows && 1 <= cols && done <= |s| < done + rows * cols
    requires acc + TransposeBlocks(s[done..], rows, cols) == TransposeBlocks(s, rows, cols)
    ensures acc == TransposeBlocks(s, rows, cols)
  {
    assert acc + [] == acc;
  }

  /** A string of whole blocks is read to a string of the same length. */
  lemma {:induction false} TransposeBlocksLength(s: seq<char>, rows: nat, cols: nat)
    requires 1 <= rows && 1 <= cols && |s| % (rows * cols) == 0
    ensures |TransposeBlocks(s, rows, cols)| == |s|
    decreases |s|
  {
    var area := rows * cols;
    if |s| < area {
      RowMajorParts(0, |s|, area);
    } else {
      ModStep(|s|, area);
      TransposeBlocksLength(s[area..], rows, cols);
    }
  }

  /**
   * Blocks are read independently: after a prefix of whole blocks, the reads
   * of the rest are those of the rest on its own.
   */
  lemma {:induction false} TransposeBlocksAppend(x: seq<char>, y: seq<char>, rows: nat, cols: nat)
    requires 1 <= rows && 1 <= cols && |x| % (rows * cols) == 0
    ensures TransposeBlocks(x + y, rows, cols) == TransposeBlocks(x, rows, cols) + TransposeBlocks(y, rows, cols)
    decreases |x|
  {
    var area := rows * cols;
    if |x| < area {
      RowMajorParts(0, |x|, area);
      assert x + y == y;
    } else {
      ModStep(|x|, area);
      TransposeBlocksAppend(x[area..], y, rows, cols);
      assert (x + y)[..area] == x[..area];
      assert (x + y)[area..] == x[area..] + y;
    }
  }

  /** Output block k is the column-major read of input block k. */
  lemma {:induction false} TransposeBlocksAt(s: seq<char>, rows: nat, cols: nat, k: nat)
    requires 1 <= rows && 1 <= cols && (k + 1) * (rows * cols) <= |s|
    ensures (k + 1) * (rows * cols) <= |TransposeBlocks(s, rows, cols)|
    ensures BlockAt(TransposeBlocks(s, rows, cols), rows * cols, k)
            == Transpose(BlockAt(s, rows * cols, k), rows, cols)
    decreases k
  {
    var area := rows * cols;
    var t := TransposeBlocks(s, rows, cols);
    MulMonotone(1, k + 1, area);
    if k == 0 {
      assert BlockAt(t, area, 0) == t[..area];
    } else {
      assert (k + 1) * area == k * area + area;
      TransposeBlocksAt(s[area..], rows, cols, k - 1);
      BlockAtShift(s, area, k);
      BlockAtShift(t, area, k);
    }
  }

  /** Block k of `s` is block k-1 of `s` without its first block. */
  lemma BlockAtShift(s: seq<char>, area: nat, k: nat)
    requires 1 <= k && (k + 1) * area <= |s|
    ensures area <= |s| && k * area <= |s[area..]|
    ensures BlockAt(s, area, k) == BlockAt(s[area..], area, k - 1)
  {
    assert (k + 1) * area == k * area + area;
    assert k * area == (k - 1) * area + area;
    MulMonotone(1, k, area);
  }

  /**
   * Reading whole blocks with the key rows x cols and then with the
   * transposed key cols x rows gives the blocks back.
   */
  lemma {:induction false} TransposeBlocksInverse(s: seq<char>, rows: nat, cols: nat)
    requires 1 <= rows && 1 <= cols && |s| % (rows * cols) == 0
    ensures TransposeBlocks(TransposeBlocks(s, rows, cols), cols, rows) == s
    decreases |s|
  {
    var area := rows * cols;
    if |s| < area {
      RowMajorParts(0, |s|, area);
    } else {
      ModStep(|s|, area);
      var first := Transpose(s[..area], rows, cols);
      var rest := TransposeBlocks(s[area..], rows, cols);
      assert cols * rows == area;
      TransposeBlocksInverse(s[area..], rows, cols);
      TransposeInverse(s[..area], rows, cols);
      assert (first + rest)[..area] == first;
      assert (first + rest)[area..] == rest;
      assert s == s[..area] + s[area..];
    }
  }

  /**
   * The message encryptMessage cuts into blocks: `m` followed by just enough
   * filler to make its length a multiple of `area`, none when it already is.
   */
  function PadMessage(m: seq<char>, area: nat): (p: seq<char>)
    requires 1 <= area
    ensures |p| % area == 0
    ensures |m| <= |p| < |m| + area
    ensures 0 < |m| ==> area <= |p|
    ensures p[..|m|] == m
    ensures forall i :: |m| <= i < |p| ==> p[i] == Filler
    ensures |m| % area == 0 ==> p == m
  {
    var p := if |m| % area != 0 then m + Fillers(area - |m| % area) else m;
    assert |p| == RowMajor(|p| / area, 0, area) by {
      if |m| % area != 0 {
        assert |p| == RowMajor(|m| / area + 1, 0, area);
        RowMajorParts(|m| / area + 1, 0, area);
      }
    }
    RowMajorParts(|p| / area, 0, area);
    p
  }

  /** What encryptMessage returns for message `m` under key rows x cols. */
  function EncryptSpec(m: seq<char>, rows: nat, cols: nat): (r: seq<char>)
    requires 1 <= rows && 1 <= cols
  {
    TransposeBlocks(PadMessage(m, rows * cols), rows, cols)
  }

  /**
   * The string that decryptMessage's short-input padding and block loop
   * build. A ciphertext one character short of a block makes the loop slice past
   * its end; a shorter one yields no block at all; a longer one has every
   * whole block read and a trailing partial block dropped.
   */
  function DecryptBlocks(c: seq<char>, rows: nat, cols: nat): Outcome
    requires 1 <= rows && 1 <= cols
  {
    if |c| == rows * cols - 1 then OutOfBounds
    else Ok(TransposeBlocks(c, rows, cols))
  }

  /**
   * What the trailing-filler loop at the end of decryptMessage does to `s`:
   * a string that does not end in the filler, or has fewer than two
   * characters, is kept; otherwise the string becomes the single
   * character before its last one, and the next round of the loop slices past
   * the end of that one-character string whenever `s` had four characters
   * or more.
   */
  function StripFiller(s: seq<char>): Outcome {
    if |s| < 2 || s[|s| - 1] != Filler then Ok(s)
    else if |s| == 2 then Ok([s[0]])
    else if |s| == 3 then Ok([s[1]])
    else OutOfBounds
  }

  /** The last whole block of `s`: the one the grid holds once the block loop ends. */
  function LastBlock(s: seq<char>, area: nat): (b: seq<char>)
    requires 1 <= area <= |s|
    decreases |s|
  {
    if |s| < area + area then s[..area] else LastBlock(s[area..], area)
  }

  /**
   * One round of the block loop keeps the last whole block in view: from
   * the start of `s`, or from the block before `from` (starting at `prev`)
   * if that already had it, the last whole block is the same as from `from`.
   */
  lemma LastBlockRound(s: seq<char>, area: nat, prev: nat, from: nat)
    requires 1 <= area && from + area <= |s|
    requires from == 0 || (prev + area == from && LastBlock(s[prev..], area) == LastBlock(s, area))
    ensures LastBlock(s[from..], area) == LastBlock(s, area)
  {
    if from == 0 {
      assert s[from..] == s;
    } else {
      assert s[prev..][area..] == s[from..];
    }
  }

  /** Once fewer than two blocks remain, the last whole block is the first of them. */
  lemma LastBlockEnd(s: seq<char>, area: nat, from: nat, to: nat)
    requires 1 <= area && to == from + area && to <= |s| < to + area
    ensures LastBlock(s[from..], area) == s[from..to]
  {
  }

  /** The last whole block is block number |s|/area - 1, counting from 0. */
  lemma {:induction false} LastBlockAt(s: seq<char>, area: nat)
    requires 1 <= area <= |s|
    ensures 1 <= |s| / area && (|s| / area) * area <= |s|
    ensures LastBlock(s, area) == BlockAt(s, area, |s| / area - 1)
    decreases |s|
  {
    var q := |s| / area;
    WholeBlocks(|s|, area);
    if |s| < area + area {
      assert q == 1 by { BlockCount(|s|, area, 1); }
      assert BlockAt(s, area, 0) == s[..area];
    } else {
      var t := s[area..];
      assert |t| / area == q - 1 by { ModStep(|s|, area); }
      assert LastBlock(s, area) == LastBlock(t, area);
      LastBlockAt(t, area);
      assert BlockAt(s, area, q - 1) == BlockAt(t, area, q - 2) by { BlockAtShift(s, area, q - 1); }
    }
  }

  /** What decryptMessage returns for ciphertext `c` under key rows x cols. */
  function DecryptSpec(c: seq<char>, rows: nat, cols: nat): Outcome
    requires 1 <= rows && 1 <= cols
  {
    match DecryptBlocks(c, rows, cols)
    case OutOfBounds => OutOfBounds
    case Ok(joined) => StripFiller(joined)
  }
}
