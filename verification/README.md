# Encryptor: a verified model of a grid-transposition cipher

The system is a single Java class, `Encryptor`. It has a key of `numRows`
rows by `numCols` columns and a grid `letterBlock` of that size, which its
methods reuse.

- **Encrypting.** `encryptMessage` pads the message with the filler `'A'`
  to a whole number of blocks of `numRows*numCols` characters. For each
  block, `fillBlock` writes it into the grid row by row and
  `encryptBlock` reads the grid out column by column.
- **Decrypting.** `decryptMessage` runs the same fill and column read over
  the ciphertext. It then tries to remove trailing filler characters.

The model has four parts:

- `GridIndex` (`grid_index.dfy`) holds the index arithmetic of the grid: the row-major position
  `row*cols+col` and the column-major position `col*rows+row`.
- `Transposition` (`transposition.dfy`) defines the value-level meaning of every operation:
  - `Transpose`: one block written row-major and read column-major;
  - `TransposeBlocks`: the block loop;
  - `PadMessage`: the encryption padding;
  - `DecryptBlocks` and `StripFiller`: decryption's block loop and trailing-filler loop;
  - `EncryptSpec` and `DecryptSpec`: the two entry points;
  - `LastBlock`: the block the grid holds when a loop ends.
- `Cipher` (`encryptor.dfy`) is the class itself: an `Encryptor` over an `array2<char>`. Its
  methods keep the Java loops. Each method is proved to return the value-level
  function of its inputs and to leave the grid in a stated state. The
  padding loops and the trailing-filler loop are methods of the module.
- `CipherProperties` (`cipher_properties.dfy`) states what the cipher does as a whole:
  - ciphertext sizes;
  - that blocks are encrypted independently;
  - how decryption treats short and ragged ciphertexts;
  - when decryption undoes encryption.

A Java `StringIndexOutOfBoundsException` is the `OutOfBounds` outcome of
the `Outcome` datatype. A Java string is a `seq<char>`, and a grid cell
(a one-character `String`) is a `char`.

The model follows what the code does, not what the comments promise. This
matters in three places:

- The comment on `decryptMessage` says it returns the original message if
  the message does not end in `'A'` and the same key is used. The model
  proves that this holds when the key is square (or when the rows and
  columns are swapped for decryption), the message is nonempty, the message
  is a whole number of blocks, and it does not end in `'A'`.
  `SwappedKeyRoundTrip` and `SquareRoundTrip` state this.
  - If the message needed padding and the grid has four cells or more,
    decryption fails with every key of that area (`PaddedMessageNeverDecrypts`).
    Decryption re-applies the forward transposition, which keeps the
    last character, the filler, in place. On a string that ends in `'A'`,
    the trailing-filler loop turns two characters into the first one and
    three characters into the middle one, and raises `OutOfBounds` on four
    characters or more (`StripTrailingFiller`).
- `decryptMessage` pads a ciphertext shorter than one block, but the
  loop's bound is recomputed from the growing string. So only half of the
  missing characters, rounded up, are appended (`PadShortCiphertext`).
  - A ciphertext one character short of a block makes the block loop
    slice past its end, which is `OutOfBounds`.
  - Any shorter ciphertext decrypts to the empty string (`DecryptShortInput`).
- `decryptMessage` slices the original ciphertext, not the padded copy.
  A trailing partial block is dropped (`DecryptDropsPartialBlock`).

## Model

| member | source | states |
|---|---|---|
| Cipher.Encryptor.constructor | src/Encryptor.java:13-18 | the grid is a fresh numRows x numCols array, the key is (r, c), and no block has been filled yet |
| Cipher.Encryptor.GetLetterBlock | src/Encryptor.java:20-23 | the returned grid has numRows rows of numCols cells, and cell (row, col) is the grid's cell (row, col) |
| Cipher.Encryptor.HoldsCells | src/Encryptor.java:44-52 | cell (row, col) holds character row*numCols+col of a block exactly when the grid read row by row is that block |
| Cipher.Encryptor.FillBlock | src/Encryptor.java:25-53 | afterwards the grid read row by row is str cut or padded with 'A' to numRows*numCols characters, and the grid counts as filled |
| Cipher.Encryptor.EncryptBlock | src/Encryptor.java:55-72 | the result is the column-major read of the grid's row-major contents, and the grid is not changed |
| Cipher.Encryptor.ReadOutCell | src/Encryptor.java:64-70 | in encryptBlock's result, the character of cell (row, col) is at position col*numRows+row |
| Cipher.Encryptor.EncryptMessage | src/Encryptor.java:74-98 | the result is the padded message transposed block by block (EncryptSpec). The empty message leaves the grid untouched; otherwise the grid ends holding the last padded block |
| Cipher.Encryptor.DecryptMessage | src/Encryptor.java:100-149 | the result is DecryptSpec: OutOfBounds for a ciphertext one short of a block or when the trailing-filler loop overruns, otherwise the block-wise transposition with the filler rule applied. The grid is untouched for a short ciphertext and otherwise ends holding the ciphertext's last whole block |
| Cipher.SuffixIsFiller | src/Encryptor.java:143 | the suffix from position j equals "A" exactly when j is the last position and holds 'A' |
| Cipher.StripTrailingFiller | src/Encryptor.java:141-147 | the trailing-filler loop keeps a string that is shorter than two or does not end in 'A'. If it ends in 'A', a two-character string becomes its first character, a three-character one its middle character, and a longer one raises OutOfBounds |
| Cipher.PadToWholeBlocks | src/Encryptor.java:82-88 | the result is the message followed by the fewest 'A's that make its length a multiple of arrayArea (PadMessage) |
| Cipher.PadShortCiphertext | src/Encryptor.java:124-131 | a ciphertext of at least one block is kept. A shorter one of length L gets ceil((arrayArea-L)/2) 'A's, and reaches a full block exactly when L = arrayArea-1 |
| Transposition.Fillers | src/Encryptor.java:38-41 | n copies of the filler 'A' |
| Transposition.BlockOf | src/Encryptor.java:25-42 | exactly area characters: str's own characters first, 'A' in every position past str's end, str itself when it is exactly one block |
| Transposition.Transpose | src/Encryptor.java:61-72 | a column-major read has as many characters as the block |
| Transposition.TransposeAt | src/Encryptor.java:64-68 | the character of cell (row, col), at row-major position row*cols+col of the block, lands at column-major position col*rows+row |
| Transposition.TransposeCharacterized | src/Encryptor.java:61-72 | a string is the column-major read of a block if and only if every cell's character sits at that cell's column-major position |
| Transposition.TransposeInverse | src/Encryptor.java:61-72 | reading a rows x cols block by columns and then reading the result as a cols x rows block gives the block back |
| Transposition.TransposeBlocks | src/Encryptor.java:90-95 | the block loop emits one character per character of the whole blocks it consumed, and leaves fewer than one block unread |
| Transposition.TransposeBlocksLength | src/Encryptor.java:90-95 | on a whole number of blocks, the block loop's output is exactly as long as its input |
| Transposition.TransposeBlocksAppend | src/Encryptor.java:90-95 | the block loop over whole blocks followed by anything is the loop over the whole blocks followed by the loop over the rest |
| Transposition.TransposeBlocksAt | src/Encryptor.java:90-95 | block k of the output is the column-major read of block k of the input |
| Transposition.TransposeBlocksInverse | src/Encryptor.java:90-95 | the block loop with the key swapped undoes the block loop on a whole number of blocks |
| Transposition.PadMessage | src/Encryptor.java:82-88 | the padded message is a multiple of the area long and less than one block longer than the message. It starts with the message, has 'A' after it, is at least one block for a nonempty message, and is the message itself when no padding is needed |
| Transposition.LastBlockAt | src/Encryptor.java:90-95 | the block the grid holds when the block loop ends is the last whole block, number length/area - 1 |
| CipherProperties.EncryptSizing | src/Encryptor.java:78-98 | the ciphertext is the message length rounded up to a multiple of rows*cols. It is empty for the empty message and exactly as long as the message when that is already a whole number of blocks |
| CipherProperties.EncryptBlockwise | src/Encryptor.java:90-95 | block k of the ciphertext is the column-major read of block k of the padded message |
| CipherProperties.EncryptConcat | src/Encryptor.java:84-95 | a message that starts with whole blocks encrypts to their encryption followed by the encryption of the rest |
| CipherProperties.DecryptShortInput | src/Encryptor.java:124-139 | a ciphertext shorter than one block fails exactly when it is one character short, and otherwise decrypts to the empty string |
| CipherProperties.DecryptDropsPartialBlock | src/Encryptor.java:133-139 | a ciphertext of at least one block decrypts as its whole blocks alone do, so a trailing partial block makes no difference |
| CipherProperties.SwappedKeyRoundTrip | src/Encryptor.java:100-149 | decrypting with rows and columns swapped gives back any nonempty message of whole blocks that does not end in 'A' |
| CipherProperties.SquareRoundTrip | src/Encryptor.java:100-149 | with a square key, decrypting with the same key gives back any nonempty message of whole blocks that does not end in 'A' |
| CipherProperties.TransposeBlocksLast | src/Encryptor.java:64-70 | the last cell is read last, so the block loop over whole blocks keeps the last character in place |
| CipherProperties.PaddedMessageNeverDecrypts | src/Encryptor.java:84-88 | once the grid has four cells or more, a message that needed padding decrypts to OutOfBounds under every key of that area, including the encrypting key |
| CipherProperties.EmptyRoundTrip | src/Encryptor.java:78 | the empty message encrypts to the empty string, which decrypts to the empty string unless the grid is a single cell |
| CipherProperties.HelloPadding | src/Encryptor.java:84-88 | "HELLO" under a six-cell key is padded to "HELLOA" |
| CipherProperties.HelloNeverDecrypts | src/Encryptor.java:100-149 | the encryption of "HELLO" under a 2 x 3 key decrypts to OutOfBounds under both the 2 x 3 and the 3 x 2 key |
| CipherProperties.ShortExample | src/Encryptor.java:124-139 | under a 2 x 3 key, a five-character ciphertext fails and a four-character one decrypts to the empty string. Under a 1 x 1 key, the empty ciphertext fails |

## Left out

- Cipher.Encryptor.constructor: requires at least one row and one column, so a grid with no cells is not modelled.
  - A negative size makes the Java array allocation throw.
  - Zero rows or zero columns make `encryptMessage` divide by zero (src/Encryptor.java:84).
  - Zero rows make `encryptBlock` read `letterBlock[0]` of an empty array (src/Encryptor.java:64).
  - Zero columns with at least one row make `decryptMessage` loop forever, because its index steps by zero (src/Encryptor.java:135).
  - The termination measure `|temp| - i` of Cipher.Encryptor.DecryptMessage relies on this requirement.
- Java `int` overflow of `numRows*numCols`, of string lengths and of the loop index `i` is not modelled. Integers are unbounded.
- Cipher.Encryptor.EncryptBlock: requires that some block has been filled (the ghost flag `filled`). Before the first `fillBlock` the Java cells are `null`, and reading them appends the text "null", which the model does not represent.
- Cipher.Encryptor.GetLetterBlock: returns a copy of the grid's contents. The Java method hands out the array itself, so callers can change the grid through it; that aliasing is not modelled.
- A Java `char` is one UTF-16 code unit, and the model's `char` stands for one such unit. A character outside the Basic Multilingual Plane is two units, so the grid can split it across two cells. Such a split surrogate pair is not represented.
- The specific exception type is not modelled: every `StringIndexOutOfBoundsException` the code can raise becomes the one `OutOfBounds` outcome.
- Transposition.Transpose: its own contract states only the length of the read. Where each character goes is stated by TransposeAt and TransposeCharacterized.
- Transposition.TransposeBlocks: its own contract states only the length bounds. What each block becomes is stated by TransposeBlocksAt, TransposeBlocksAppend and TransposeBlocksLength.
- The cost of repeated string concatenation is not modelled.
- The concrete examples are stated about padding and decryption outcomes only. A literal column-major read is not stated as an example; `TransposeAt` and `EncryptBlockwise` state it for every input.
