/**
 * What the cipher as a whole does: the size of a ciphertext, the block by
 * block structure of encryption, how decryption treats short and ragged
 * ciphertexts, and when decrypting an encryption gives the message back.
 */
module CipherProperties {
  import opened GridIndex
  import opened Transposition

  /** A length that is a whole number of blocks keeps the remainder of whatever is appended to it. */
  lemma WholeBlocksPrefix(a: nat, b: nat, area: nat)
    requires 1 <= area && a % area == 0
    ensures (a + b) % area == b % area
  {
    assert a == RowMajor(a / area, 0, area);
    assert a + b == RowMajor(a / area + b / area, b % area, area);
    RowMajorParts(a / area + b / area, b % area, area);
  }

  /**
   * The ciphertext is the message rounded up to a whole number of blocks:
   * empty for the empty message, and exactly as long as the message when
   * that is already a multiple of rows*cols.
   */
  lemma EncryptSizing(m: seq<char>, rows: nat, cols: nat)
    requires 1 <= rows && 1 <= cols
    ensures |EncryptSpec(m, rows, cols)| % (rows * cols) == 0
    ensures |m| <= |EncryptSpec(m, rows, cols)| < |m| + rows * cols
    ensures |m| == 0 ==> EncryptSpec(m, rows, cols) == []
    ensures |m| % (rows * cols) == 0 ==> |EncryptSpec(m, rows, cols)| == |m|
  {
    TransposeBlocksLength(PadMessage(m, rows * cols), rows, cols);
  }

  /** Block k of the ciphertext is the column-major read of block k of the padded message. */
  lemma EncryptBlockwise(m: seq<char>, rows: nat, cols: nat, k: nat)
    requires 1 <= rows && 1 <= cols && (k + 1) * (rows * cols) <= |PadMessage(m, rows * cols)|
    ensures (k + 1) * (rows * cols) <= |EncryptSpec(m, rows, cols)|
    ensures BlockAt(EncryptSpec(m, rows, cols), rows * cols, k)
            == Transpose(BlockAt(PadMessage(m, rows * cols), rows * cols, k), rows, cols)
  {
    TransposeBlocksAt(PadMessage(m, rows * cols), rows, cols, k);
  }

  /**
   * Blocks are encrypted independently: a message that starts with whole
   * blocks encrypts to the encryption of those blocks followed by the
   * encryption of the rest.
   */
  lemma EncryptConcat(x: seq<char>, y: seq<char>, rows: nat, cols: nat)
    requires 1 <= rows && 1 <= cols && |x| % (rows * cols) == 0
    ensures EncryptSpec(x + y, rows, cols) == EncryptSpec(x, rows, cols) + EncryptSpec(y, rows, cols)
  {
    var area := rows * cols;
    WholeBlocksPrefix(|x|, |y|, area);
    assert PadMessage(x + y, area) == x + PadMessage(y, area);
    TransposeBlocksAppend(x, PadMessage(y, area), rows, cols);
  }

  /**
   * A ciphertext shorter than a block holds no block: decryption fails
   * exactly when it is one character short, and gives the empty message
   * otherwise.
   */
  lemma DecryptShortInput(c: seq<char>, rows: nat, cols: nat)
    requires 1 <= rows && 1 <= cols && |c| < rows * cols
    ensures DecryptSpec(c, rows, cols) == OutOfBounds <==> |c| == rows * cols - 1
    ensures |c| != rows * cols - 1 ==> DecryptSpec(c, rows, cols) == Ok([])
  {
  }

  /**
   * Decryption of a ciphertext of at least one block reads only its whole
   * blocks: a trailing partial block makes no difference.
   */
  lemma DecryptDropsPartialBlock(c: seq<char>, rows: nat, cols: nat)
    requires 1 <= rows && 1 <= cols && rows * cols <= |c|
    ensures (|c| / (rows * cols)) * (rows * cols) <= |c|
    ensures DecryptSpec(c, rows, cols) == DecryptSpec(c[..(|c| / (rows * cols)) * (rows * cols)], rows, cols)
  {
    var area := rows * cols;
    var j := (|c| / area) * area;
    WholeBlockPrefix(|c|, area);
    var whole, rest := c[..j], c[j..];
    assert c == whole + rest;
    TransposeBlocksAppend(whole, rest, rows, cols);
    assert TransposeBlocks(rest, rows, cols) == [];
    assert TransposeBlocks(whole, rows, cols) + [] == TransposeBlocks(whole, rows, cols);
  }

  /** A whole number of blocks that is not empty is at least one block long. */
  lemma NonEmptyBlocks(len: nat, area: nat)
    requires 1 <= area && 0 < len && len % area == 0
    ensures area <= len
  {
    if len < area {
      RowMajorParts(0, len, area);
    }
  }

  /**
   * Decrypting with the rows and columns swapped undoes encryption for a
   * message that is a nonempty whole number of blocks and does not end in
   * the filler character.
   */
  lemma SwappedKeyRoundTrip(m: seq<char>, rows: nat, cols: nat)
    requires 1 <= rows && 1 <= cols && 0 < |m| && |m| % (rows * cols) == 0 && m[|m| - 1] != Filler
    ensures DecryptSpec(EncryptSpec(m, rows, cols), cols, rows) == Ok(m)
  {
    var c := EncryptSpec(m, rows, cols);
    TransposeBlocksLength(m, rows, cols);
    NonEmptyBlocks(|m|, rows * cols);
    assert cols * rows == rows * cols;
    TransposeBlocksInverse(m, rows, cols);
    assert DecryptBlocks(c, cols, rows) == Ok(m);
  }

  /** With a square key the same key decrypts, under the conditions of SwappedKeyRoundTrip. */
  lemma SquareRoundTrip(m: seq<char>, n: nat)
    requires 1 <= n && 0 < |m| && |m| % (n * n) == 0 && m[|m| - 1] != Filler
    ensures DecryptSpec(EncryptSpec(m, n, n), n, n) == Ok(m)
  {
    SwappedKeyRoundTrip(m, n, n);
  }

  /** The last cell of a grid is read last: a whole number of blocks keeps its last character. */
  lemma TransposeBlocksLast(s: seq<char>, rows: nat, cols: nat)
    requires 1 <= rows && 1 <= cols && 0 < |s| && |s| % (rows * cols) == 0
    ensures |TransposeBlocks(s, rows, cols)| == |s|
    ensures TransposeBlocks(s, rows, cols)[|s| - 1] == s[|s| - 1]
  {
    var area := rows * cols;
    var k := |s| / area - 1;
    NonEmptyBlocks(|s|, area);
    WholeBlocks(|s|, area);
    assert |s| == (k + 1) * area by {
      assert |s| == RowMajor(|s| / area, 0, area);
    }
    TransposeBlocksLength(s, rows, cols);
    TransposeBlocksAt(s, rows, cols, k);
    TransposeAt(BlockAt(s, area, k), rows, cols, rows - 1, cols - 1);
    assert ColMajor(rows - 1, cols - 1, rows) == area - 1 == RowMajor(rows - 1, cols - 1, cols);
    assert BlockAt(s, area, k)[area - 1] == s[|s| - 1];
  }

  /**
   * A message that needed padding never decrypts once the grid has four
   * cells or more, whichever key of that area is used: the padded message
   * ends in the filler, encrypting and then decrypting keeps that last
   * character, and the trailing-filler loop fails on a string that long.
   */
  lemma PaddedMessageNeverDecrypts(m: seq<char>, rows: nat, cols: nat, rows2: nat, cols2: nat)
    requires 1 <= rows && 1 <= cols && 1 <= rows2 && 1 <= cols2 && rows2 * cols2 == rows * cols
    requires 4 <= rows * cols && |m| % (rows * cols) != 0
    ensures DecryptSpec(EncryptSpec(m, rows, cols), rows2, cols2) == OutOfBounds
  {
    var area := rows * cols;
    var p := PadMessage(m, area);
    var c := EncryptSpec(m, rows, cols);
    assert |m| < |p|;
    NonEmptyBlocks(|p|, area);
    TransposeBlocksLast(p, rows, cols);
    TransposeBlocksLast(c, rows2, cols2);
    assert DecryptBlocks(c, rows2, cols2) == Ok(TransposeBlocks(c, rows2, cols2));
  }

  /** The empty message encrypts to the empty ciphertext, which decrypts to the empty message unless the grid has one cell. */
  lemma EmptyRoundTrip(rows: nat, cols: nat)
    requires 1 <= rows && 1 <= cols
    ensures EncryptSpec([], rows, cols) == []
    ensures DecryptSpec([], rows, cols) == if rows * cols == 1 then OutOfBounds else Ok([])
  {
  }

  /** "HELLO" under a 2 x 3 key (six cells) gets one filler. */
  lemma HelloPadding()
    ensures PadMessage("HELLO", 6) == "HELLOA"
  {
  }

  /** Neither the 2 x 3 key nor the swapped 3 x 2 key decrypts the encryption of "HELLO". */
  lemma HelloNeverDecrypts(m: seq<char>)
    requires m == "HELLO"
    ensures DecryptSpec(EncryptSpec(m, 2, 3), 2, 3) == OutOfBounds
    ensures DecryptSpec(EncryptSpec(m, 2, 3), 3, 2) == OutOfBounds
  {
    PaddedMessageNeverDecrypts(m, 2, 3, 2, 3);
    PaddedMessageNeverDecrypts(m, 2, 3, 3, 2);
  }

  /** Short ciphertexts: one character short of the block fails, anything shorter decrypts to nothing. */
  lemma ShortExample()
    ensures DecryptSpec("BECFD", 2, 3) == OutOfBounds
    ensures DecryptSpec("BECF", 2, 3) == Ok([])
    ensures DecryptSpec("", 1, 1) == OutOfBounds
  {
  }
}
