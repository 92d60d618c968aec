/**
 * The Encryptor object: a rows x cols grid of characters (letterBlock) that
 * each method overwrites or reads with nested loops, as the Java class does.
 * Every method is proved to compute the value-level functions of module
 * Transposition and to leave the grid in a stated state.
 */
module Cipher {
  import opened GridIndex
  import opened Transposition

  class Encryptor {
    /** The grid; its cells are the one-character strings of the Java array. */
    const letterBlock: array2<char>
    /** The key: number of rows and of columns of letterBlock. */
    const numRows: nat
    const numCols: nat
    /** Whether fillBlock has run: before that the Java cells are null. */
    ghost var filled: bool

    ghost predicate Valid() {
      1 <= numRows && 1 <= numCols &&
      letterBlock.Length0 == numRows && letterBlock.Length1 == numCols
    }

    /** The grid read row by row, as one block of numRows*numCols characters. */
    ghost function Cells(): (cells: seq<char>)
      requires Valid()
      reads letterBlock
    {
      seq(numRows * numCols, k requires 0 <= k < numRows * numCols reads letterBlock =>
            RowMajorSplit(k, numRows, numCols);
            letterBlock[k / numCols, k % numCols])
    }

    /** Cell (row, col) of the grid holds character row*numCols+col of `block`. */
    ghost predicate Holds(block: seq<char>)
      requires Valid() && |block| == numRows * numCols
      reads letterBlock
    {
      CellsInRange(numRows, numCols);
      forall row, col :: 0 <= row < numRows && 0 <= col < numCols ==>
        letterBlock[row, col] == block[RowMajor(row, col, numCols)]
    }

    /** The grid holds `block` in row-major order exactly when its row-by-row reading is `block`. */
    lemma HoldsCells(block: seq<char>)
      requires Valid() && |block| == numRows * numCols
      ensures Holds(block) <==> Cells() == block
    {
      CellsInRange(numRows, numCols);
      var cells := Cells();
      forall row, col | 0 <= row < numRows && 0 <= col < numCols
        ensures cells[RowMajor(row, col, numCols)] == letterBlock[row, col]
      {
        RowMajorParts(row, col, numCols);
      }
      if Holds(block) {
        forall k | 0 <= k < numRows * numCols
          ensures cells[k] == block[k]
        {
          RowMajorSplit(k, numRows, numCols);
        }
      }
    }

    /** Encryptor(r, c): an r x c grid and the key (r, c). */
    constructor (r: nat, c: nat)
      requires 1 <= r && 1 <= c
      ensures Valid() && fresh(letterBlock)
      ensures numRows == r && numCols == c && !filled
    {
      letterBlock := new char[r, c];
      numRows := r;
      numCols := c;
      filled := false;
    }

    /** The grid contents, row by row (getLetterBlock hands out the array itself). */
    function GetLetterBlock(): (grid: seq<seq<char>>)
      requires Valid()
      reads letterBlock
      ensures |grid| == numRows
      ensures forall row :: 0 <= row < numRows ==> |grid[row]| == numCols
      ensures forall row, col :: 0 <= row < numRows && 0 <= col < numCols ==>
                grid[row][col] == letterBlock[row, col]
    {
      seq(numRows, row requires 0 <= row < numRows reads letterBlock =>
            seq(numCols, col requires 0 <= col < numCols reads letterBlock => letterBlock[row, col]))
    }

    /**
     * fillBlock: pads `str` with the filler up to numRows*numCols characters
     * (or ignores what lies beyond), then writes it into the grid row by row.
     */
    method FillBlock(str: seq<char>)
      requires Valid()
      modifies letterBlock, this`filled
      ensures filled
      ensures Cells() == BlockOf(str, numRows * numCols)
    {
      var temp := str;
      if |temp| < numRows * numCols {
        var i := 0;
        while i < numRows * numCols - |str|
          invariant 0 <= i <= numRows * numCols - |str|
          invariant temp == str + Fillers(i)
        {
          temp := temp + [Filler];
          i := i + 1;
        }
      }
      ghost var block := BlockOf(str, numRows * numCols);
      assert |temp| >= numRows * numCols;
      assert forall k :: 0 <= k < numRows * numCols ==> temp[k] == block[k];

      CellsInRange(numRows, numCols);
      var indexOfStr := 0;
      var row := 0;
      while row < numRows
        invariant 0 <= row <= numRows
        invariant indexOfStr == RowMajor(row, 0, numCols)
        invariant forall r, c :: 0 <= r < row && 0 <= c < numCols ==>
                    letterBlock[r, c] == block[RowMajor(r, c, numCols)]
      {
        var col := 0;
        while col < numCols
          invariant 0 <= col <= numCols
          invariant indexOfStr == RowMajor(row, col, numCols)
          invariant forall r, c :: 0 <= r < row && 0 <= c < numCols ==>
                      letterBlock[r, c] == block[RowMajor(r, c, numCols)]
          invariant forall c :: 0 <= c < col ==> letterBlock[row, c] == block[RowMajor(row, c, numCols)]
        {
          letterBlock[row, col] := temp[indexOfStr];
          indexOfStr := indexOfStr + 1;
          col := col + 1;
        }
        NextRow(row, numCols);
        row := row + 1;
      }
      filled := true;
      HoldsCells(block);
    }

    /**
     * encryptBlock: the grid read column by column; the character of cell
     * (row, col) lands at position col*numRows+row. The grid is not changed.
     */
    method EncryptBlock() returns (encryptedStr: seq<char>)
      requires Valid() && filled
      ensures encryptedStr == Transpose(Cells(), numRows, numCols)
    {
      encryptedStr := [];
      var col := 0;
      while col < letterBlock.Length1
        invariant 0 <= col <= numCols
        invariant |encryptedStr| == ColMajor(0, col, numRows)
        invariant forall r, c :: 0 <= r < numRows && 0 <= c < col ==>
                    0 <= ColMajor(r, c, numRows) < |encryptedStr| &&
                    encryptedStr[ColMajor(r, c, numRows)] == letterBlock[r, c]
      {
        var row := 0;
        while row < letterBlock.Length0
          invariant 0 <= row <= numRows
          invariant |encryptedStr| == ColMajor(row, col, numRows)
          invariant forall r, c :: 0 <= r < numRows && 0 <= c < col ==>
                      0 <= ColMajor(r, c, numRows) < ColMajor(0, col, numRows) &&
                      encryptedStr[ColMajor(r, c, numRows)] == letterBlock[r, c]
          invariant forall r :: 0 <= r < row ==> encryptedStr[ColMajor(r, col, numRows)] == letterBlock[r, col]
        {
          encryptedStr := encryptedStr + [letterBlock[row, col]];
          row := row + 1;
        }
        NextColumn(col, numRows);
        col := col + 1;
      }
      ghost var cells := Cells();
      HoldsCells(cells);
      TransposeCharacterized(cells, numRows, numCols, encryptedStr);
    }

    /**
     * What encryptBlock's read promises cell by cell: the character of cell
     * (row, col) is at position col*numRows+row of the read.
     */
    lemma ReadOutCell(s: seq<char>, row: int, col: int)
      requires Valid() && s == Transpose(Cells(), numRows, numCols)
      requires 0 <= row < numRows && 0 <= col < numCols
      ensures 0 <= ColMajor(row, col, numRows) < |s|
      ensures s[ColMajor(row, col, numRows)] == letterBlock[row, col]
    {
      TransposeAt(Cells(), numRows, numCols, row, col);
      RowMajorParts(row, col, numCols);
    }

    /**
     * encryptMessage: pads the message with the filler to a multiple of
     * numRows*numCols, then fills the grid with each block in turn and
     * appends its column-major read.
     */
    method EncryptMessage(message: seq<char>) returns (encryptedMessage: seq<char>)
      requires Valid()
      modifies letterBlock, this`filled
      ensures encryptedMessage == EncryptSpec(message, numRows, numCols)
      ensures |message| == 0 ==> unchanged(letterBlock) && filled == old(filled)
      ensures |message| > 0 ==>
                filled && Cells() == LastBlock(PadMessage(message, numRows * numCols), numRows * numCols)
    {
      var arrayArea := numRows * numCols;
      var temp := PadToWholeBlocks(message, arrayArea);

      encryptedMessage := [];
      var i := arrayArea;
      ghost var done: nat := 0;
      ghost var lastDone: nat := 0;
      while i <= |temp|
        invariant done == i - arrayArea && done <= |temp|
        invariant encryptedMessage + TransposeBlocks(temp[done..], numRows, numCols)
                  == TransposeBlocks(temp, numRows, numCols)
        invariant done == 0 ==> unchanged(letterBlock) && filled == old(filled)
        invariant done > 0 ==>
                    filled && lastDone + arrayArea == done && Cells() == temp[lastDone..done] &&
                    LastBlock(temp[lastDone..], arrayArea) == LastBlock(temp, arrayArea)
        decreases |temp| - i
      {
        BlockRound(temp, numRows, numCols, done, i, encryptedMessage);
        LastBlockRound(temp, arrayArea, lastDone, done);
        SameSlice(temp, i - arrayArea, done, i);
        FillBlock(temp[i - arrayArea .. i]);
        var encryptedBlock := EncryptBlock();
        encryptedMessage := encryptedMessage + encryptedBlock;
        lastDone, done := done, i;
        i := i + arrayArea;
      }
      BlocksDone(temp, numRows, numCols, done, encryptedMessage);
      if |message| > 0 {
        LastBlockEnd(temp, arrayArea, lastDone, done);
      }
    }

    /**
     * decryptMessage: pads a short ciphertext (its bound grows with the
     * padding, so only half the missing characters are added), runs the
     * same fill and column-major read over each whole block of the
     * ciphertext (slicing the ciphertext, not the padded copy), then runs
     * the trailing-filler loop. The two StringIndexOutOfBoundsExceptions
     * of the Java code are the OutOfBounds outcome.
     */
    method DecryptMessage(encryptedMessage: seq<char>) returns (result: Outcome)
      requires Valid()
      modifies letterBlock, this`filled
      ensures result == DecryptSpec(encryptedMessage, numRows, numCols)
      ensures |encryptedMessage| < numRows * numCols ==> unchanged(letterBlock) && filled == old(filled)
      ensures |encryptedMessage| >= numRows * numCols ==>
                filled && Cells() == LastBlock(encryptedMessage, numRows * numCols)
    {
      var temp := PadShortCiphertext(encryptedMessage, numRows * numCols);

      var message := [];
      var arrayArea := numRows * numCols;
      var i := arrayArea;
      ghost var done: nat := 0;
      ghost var lastDone: nat := 0;
      while i <= |temp|
        invariant done == i - arrayArea && done <= |encryptedMessage|
        invariant |encryptedMessage| < arrayArea ==> done == 0
        invariant message + TransposeBlocks(encryptedMessage[done..], numRows, numCols)
                  == TransposeBlocks(encryptedMessage, numRows, numCols)
        invariant done == 0 ==> unchanged(letterBlock) && filled == old(filled)
        invariant done > 0 ==>
                    filled && lastDone + arrayArea == done && Cells() == encryptedMessage[lastDone..done] &&
                    LastBlock(encryptedMessage[lastDone..], arrayArea) == LastBlock(encryptedMessage, arrayArea)
        decreases |temp| - i
      {
        if i > |encryptedMessage| {
          // encryptedMessage.substring(i - arrayArea, i) reaches past the end
          assert done == 0 && |encryptedMessage| == arrayArea - 1;
          assert DecryptSpec(encryptedMessage, numRows, numCols) == OutOfBounds;
          return OutOfBounds;
        }
        BlockRound(encryptedMessage, numRows, numCols, done, i, message);
        LastBlockRound(encryptedMessage, arrayArea, lastDone, done);
        SameSlice(encryptedMessage, i - arrayArea, done, i);
        FillBlock(encryptedMessage[i - arrayArea .. i]);
        var decryptedBlock := EncryptBlock();
        message := message + decryptedBlock;
        lastDone, done := done, i;
        i := i + arrayArea;
      }
      BlocksDone(encryptedMessage, numRows, numCols, done, message);
      if |encryptedMessage| >= arrayArea {
        LastBlockEnd(encryptedMessage, arrayArea, lastDone, done);
      }
      assert |encryptedMessage| != arrayArea - 1;

      result := StripTrailingFiller(message);
    }
  }

  /** The suffix from position j is the one-character string "A" exactly when j is the last position and holds 'A'. */
  lemma SuffixIsFiller(s: seq<char>, j: int)
    requires 0 <= j <= |s|
    ensures s[j..] == [Filler] <==> j == |s| - 1 && s[j] == Filler
  {
    if j == |s| - 1 && s[j] == Filler {
      assert s[j..] == [s[j]];
    }
  }

  /**
   * The trailing-filler loop that ends decryptMessage. Whenever the suffix
   * from position j is the one-character string "A", the message is replaced
   * by the single character at j-1; a suffix that starts past the end of the
   * message is the StringIndexOutOfBoundsException.
   */
  method StripTrailingFiller(joined: seq<char>) returns (result: Outcome)
    ensures result == StripFiller(joined)
  {
    ghost var n := |joined|;
    ghost var endsInFiller := n >= 2 && joined[n - 1] == Filler;
    var message := joined;
    var j := |message| - 1;
    while j > 0
      invariant -1 <= j <= n - 1
      invariant message == if endsInFiller && j < n - 1 then [joined[n - 2]] else joined
      invariant endsInFiller && j < n - 1 ==> j == n - 2 || (n == 3 && j == 0)
    {
      if j > |message| {
        // message.substring(j) starts past the end of the one-character message
        return OutOfBounds;
      }
      SuffixIsFiller(message, j);
      if message[j..] == [Filler] {
        message := message[j - 1 .. j];
      }
      j := j - 1;
    }
    return Ok(message);
  }

  /**
   * The padding loop of encryptMessage: unless the message length is already
   * a multiple of arrayArea, append arrayArea - length % arrayArea fillers.
   */
  method PadToWholeBlocks(message: seq<char>, arrayArea: nat) returns (temp: seq<char>)
    requires 1 <= arrayArea
    ensures temp == PadMessage(message, arrayArea)
  {
    temp := message;
    if |message| % arrayArea != 0 {
      var i := 0;
      while i < arrayArea - |message| % arrayArea
        invariant 0 <= i <= arrayArea - |message| % arrayArea
        invariant temp == message + Fillers(i)
      {
        temp := temp + [Filler];
        i := i + 1;
      }
    }
  }

  /**
   * The padding loop of decryptMessage for a ciphertext shorter than one
   * block. Its bound is recomputed from the growing string, so it stops
   * after appending half of the missing characters, rounded up.
   */
  method PadShortCiphertext(encryptedMessage: seq<char>, arrayArea: nat) returns (temp: seq<char>)
    ensures |encryptedMessage| >= arrayArea ==> temp == encryptedMessage
    ensures |encryptedMessage| < arrayArea ==>
              temp == encryptedMessage + Fillers((arrayArea - |encryptedMessage| + 1) / 2)
    ensures |encryptedMessage| < arrayArea ==>
              (|temp| >= arrayArea <==> |encryptedMessage| == arrayArea - 1)
  {
    temp := encryptedMessage;
    if |temp| < arrayArea {
      var i := 0;
      while i < arrayArea - |temp|
        invariant 0 <= i && temp == encryptedMessage + Fillers(i)
        invariant 2 * i <= arrayArea - |encryptedMessage| + 1
      {
        temp := temp + [Filler];
        i := i + 1;
      }
    }
  }
}
