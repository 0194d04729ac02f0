# c8dump: a verified model of a Chip-8 disassembler

c8dump reads a Chip-8 program image and prints one line per 16-bit
instruction:

    0x0000: LD I, 0x22a
    0x0002: LD V0, 0x0c
    0x0004: DRW V0, V1, 0x05

Every line has three parts:
- the byte offset of the instruction, in lowercase hex with at least four digits;
- a colon and a space;
- the instruction's mnemonic.

The program has two parts, and this project models both.

The decoder (`decode`) maps every `u16` word to its mnemonic text. It
dispatches on the top nibble, and for opcodes 0, 8, E and F it dispatches a
second time on a lower field.

The disassembler loop (`disassemble`) works like this:
- It reads the input into a two-byte buffer.
- It puts the two bytes together as a big-endian word.
- It writes the word's line, then advances its offset by two.
- It stops with `Ok` at the first read that yields other than two bytes.
- It stops with `InputError("Error reading input")` when a read fails.

The modules follow that structure:

- `Hex` (hex.dfy) models Rust's integer formatting:
  - `{:x}` is `ToHex`, the shortest lowercase hex.
  - `{:0>W x}` is `ZeroPad`, zero-padded to a minimum width.
  - `{:>1x}` is `PadLeft` with a space as the fill.
  - Reading a digit string back is `HexValue`.
- `Strings` (strings.dfy) holds the separator-splitting and joining used to read lines back.
- `Chip8` (chip8.dfy) holds:
  - the instruction word, a `nat` below 0x10000;
  - its bit fields. The masks and shifts of the source are division and remainder by powers of two.
  - `Decode`, written arm by arm after the source's `match`;
  - one lemma per opcode group, giving the exact text of each arm with every field spelled out digit by digit.
- `Assembler` (assembler.dfy) holds the partner of `Decode`:
  - `Parse` reads a line as a mnemonic with operands and rebuilds a word. It is lenient and also takes spellings the decoder never prints.
  - `Assemble` keeps a parse only when the decoder prints exactly that line for the word.
  - The parse is proved to invert the decoder on every word, up to the low nibble of opcodes 5 and 9, which the text does not show. This shows that every field of a word can be recovered from its text.
- `Disassembler` (disassembler.dfy) holds:
  - the `DissasembleError` enum (src/main.rs:31-34) and the `Result` of a run (src/main.rs:36). Its `Err` carries the error, and its `Ok` carries nothing, as `Ok(())` does;
  - a `Reader` class over a byte sequence, with an optional failing read position;
  - a `Writer` class whose `contents` is everything written to it;
  - the loop as the method `Disassemble`, proved against the specification functions `Words`, `Texts`, `Listing` and `Outcome`.
- `Listings` (listing.dfy) holds what the listing consists of:
  - the line-by-line view;
  - the odd trailing byte;
  - the empty input;
  - what a failed run leaves behind.

Register digits are lowercase, as `{:x}` prints them: `LD Va, 0x3f`, not `LD VA, 0x3f`. The model follows the format strings. Some comments in the source name other mnemonics for the same arms, and the model ignores those comments too:
- src/main.rs:152 names `JP V0` for opcode B, but line 154 prints `LD V0, …`.
- The comments at src/main.rs:76 and 131 name the wrong encodings.

## Model

| member | source | states |
|---|---|---|
| `Hex.ToHex` | src/main.rs:67 | `{:x}`: at least one digit, all lowercase hex |
| `Hex.ZeroPadDigits` | src/main.rs:258 | `{:0>W x}` is max(W, digits of the value) lowercase hex digits, and they read back as the value whatever its size |
| `Hex.ToHexValue` | src/main.rs:67 | `{:x}` prints lowercase hex digits that read back as the value, with no leading zero |
| `Hex.ZeroPadExact` | src/main.rs:50 | `{:0>W x}` of a value below 16^W is exactly W lowercase hex digits, and they read back as the value |
| `Hex.SingleDigit` | src/main.rs:136 | `{:x}` and `{:>1x}` of a value below 16 are its single digit, with no fill added |
| `Hex.PadLeft` | src/main.rs:258 | a padded field is `width` long, or the text's own length when that is longer; it ends with the text and is filled in front |
| `Chip8.Opcode` | src/main.rs:39 | bits 12-15, `(instruction & 0xf000) >> 12`, as the word divided by 0x1000; below 16 |
| `Chip8.X` | src/main.rs:65 | bits 8-11, `(instruction >> 8) & 0xf`, as the word divided by 0x100, modulo 16; below 16 |
| `Chip8.Y` | src/main.rs:78 | bits 4-7: Rust's `>>` binds tighter than `&`, so `instruction >> 4 & 0xf` is the word divided by 0x10, modulo 16; below 16 |
| `Chip8.N` | src/main.rs:96 | bits 0-3, `instruction & 0xf`, as the word modulo 16; below 16 |
| `Chip8.KK` | src/main.rs:66 | bits 0-7, `instruction & 0xff`, as the word modulo 0x100; below 0x100 |
| `Chip8.NNN` | src/main.rs:43 | bits 0-11, `instruction & 0x0fff`, as the word modulo 0x1000; below 0x1000 |
| `Chip8.Nibbles` | src/main.rs:39 | the opcode, x, y and n nibbles make up the word; `nnn` is x followed by `kk`; `kk` is y followed by n |
| `Chip8.Decode` | src/main.rs:38-241 | every word has a non-empty text; the sixteen arms cover every opcode, so the fallback arm (236-240) is unreachable |
| `Chip8.DecodeSystem` | src/main.rs:42-52 | opcode 0: `CLS` for nnn 0e0 and `RET` for 0ee; for any other nnn, `SYS 0x` and its three lowercase digits |
| `Chip8.DecodeAddress` | src/main.rs:53-62 | `JP 0x` and `CALL 0x`, each followed by the three digits of nnn; the same holds for opcodes A (`LD I, 0x`) and B (`LD V0, 0x`) at lines 146-155 |
| `Chip8.DecodeRegisterByte` | src/main.rs:63-74 | `SE` and `SNE` followed by `Vx, 0xkk`: one digit for x and two for kk. The same shape holds for `LD` and `ADD` at lines 81-92 and for `RND` at lines 156-161 |
| `Chip8.DecodeRegisterPair` | src/main.rs:75-80 | opcode 5 prints `SE Vx, Vy` and, at lines 140-145, opcode 9 prints `SNE Vx, Vy`; the low nibble is not shown |
| `Chip8.DecodeArithmetic` | src/main.rs:93-139 | n in 0-7 and e gives LD/OR/AND/XOR/ADD/SUB/SHR/SUBN/SHL `Vx, Vy`; every other n gives the opcode-8 invalid marker with one digit each for x, y and n |
| `Chip8.DecodeDraw` | src/main.rs:162-169 | `DRW Vx, Vy, 0x0n`: the 4-bit height is padded to two digits |
| `Chip8.DecodeKeys` | src/main.rs:171-188 | `SKP Vx` for kk 9e and `SKNP Vx` for a1; for any other kk, the opcode-E marker showing x and `0xkk`, with no `sel:` label |
| `Chip8.DecodeMisc` | src/main.rs:190-235 | the nine F instructions for kk 07, 0a, 15, 18, 1e, 29, 33, 55 and 65, with their operand order; any other kk gives the opcode-F marker showing x and `sel: 0xkk` |
| `Chip8.DecodeCanonical` | src/main.rs:75-80 | clearing the low nibble of opcodes 5 and 9 does not change the text |
| `Chip8.DecodeOneLine` | src/main.rs:38-241 | no text contains a line break |
| `Assembler.AssembleDecode` | src/main.rs:38-241 | every word's text parses back to the word, less the low nibble of opcodes 5 and 9 |
| `Assembler.DecodeInjective` | src/main.rs:38-241 | two words print the same text exactly when they differ only in bits the text does not show |
| `Assembler.AssembleAcceptsDecoded` | src/main.rs:38-241 | `Assemble` accepts exactly the texts the decoder can print. The "every printed text" half is `AssembleDecode`; the "only those" half holds by the check `Assemble` makes against `Decode` |
| `Disassembler.Reader.constructor` | src/main.rs:244 | a new reader stands at the first byte |
| `Disassembler.Reader.ReadInto` | src/main.rs:251 | a read at the failing position fails and changes nothing; otherwise it copies the next min(buffer length, bytes left) bytes into the buffer and advances by that count |
| `Disassembler.Writer.constructor` | src/main.rs:245 | a new writer holds nothing |
| `Disassembler.Writer.Write` | src/main.rs:259 | a write appends its text |
| `Disassembler.Line` | src/main.rs:258 | a line is `0x`, then the offset as lowercase hex digits that read back as the offset (at least four of them), then `: `, then the instruction text |
| `Disassembler.Words` | src/main.rs:256 | word i is byte 2i shifted left by 8 and combined with byte 2i+1; there are half as many words as bytes, rounded down |
| `Disassembler.Outcome` | src/main.rs:252-255 | a run lists at most as many lines as there are whole pairs, exactly as many when it ends with `Ok`, and it ends with an error exactly when the read right after its last line is the failing one |
| `Disassembler.Disassemble` | src/main.rs:243-267 | the run writes, after the existing output, the lines of the first pairs as `Outcome` counts them; it returns that result and leaves the reader at the end or at the failing read. So an `Ok` run lists every whole pair |
| `Disassembler.WriteInstruction` | src/main.rs:258-260 | the header `0x` plus the offset padded to four digits plus `: `, then the text, then a line break, in that order |
| `Disassembler.Started` | src/main.rs:247-249 | before the first read, offset 0 and nothing listed satisfy the loop invariant |
| `Disassembler.Stepped` | src/main.rs:256-262 | with `offset == 2 * lines`, the line written for a full pair is the next line of the listing, so the loop invariant holds one line further |
| `Disassembler.Ended` | src/main.rs:253-254 | a short read ends the run with `Ok`, every whole pair listed |
| `Disassembler.Failed` | src/main.rs:264 | a failed read ends the run with `InputError("Error reading input")`, the lines before it kept |
| `Listings.Lines` | src/main.rs:258 | line i shows byte offset `offset + 2i` and text i |
| `Listings.ListingJoin` | src/main.rs:260 | the listing is its lines joined by line breaks, with one line break after the last |
| `Listings.LineOneLine` | src/main.rs:257-259 | the header and the text of a line contain no line break |
| `Listings.DumpLines` | src/main.rs:250-262 | splitting the output of 2k bytes at line breaks gives exactly k lines and an empty tail; line i is offset 2i followed by the decoding of bytes 2i and 2i+1 |
| `Listings.DumpLine` | src/main.rs:256-260 | line i is `0x` plus the offset 2i padded to four digits plus `: ` plus the decoding of bytes 2i and 2i+1 |
| `Listings.LineFields` | src/main.rs:258 | below 0x10000, the offset field is exactly four hex digits that read back as the offset; the text follows `: ` |
| `Listings.DumpOddByte` | src/main.rs:253 | a trailing odd byte adds nothing to the output |
| `Listings.CleanRun` | src/main.rs:250-263 | a run whose reads never fail reads to the end, succeeds and writes the whole listing |
| `Listings.EmptyRun` | src/main.rs:251-255 | with nothing left to read, nothing is written; the result is `Ok` unless that one read fails |
| `Listings.FailedRun` | src/main.rs:264 | a failure at the read of pair k returns `InputError`, keeps exactly the first k lines, and that output is a prefix of a clean run's |

## Left out

- `main` (src/main.rs:13-28) handles the command line and file access (clap, `File::open(...).unwrap()`). It is not modelled. A run starts from a `Reader` built over the file's bytes.
- Buffering (`BufReader`, `BufWriter`) and `flush` (src/main.rs:244-245, 261) are not modelled. A `Writer` shows every write at once.
- Write failures are not modelled: writes always succeed.
  - The header write's result is discarded (src/main.rs:258).
  - The other two writes `unwrap`, so a failure there panics (src/main.rs:259-260).
  - `OutputError` (src/main.rs:33) is declared but never constructed, in the source or in the model.
- Partial writes are not modelled: `Disassembler.Writer.Write` appends the whole text.
- `Disassembler.Reader.ReadInto` always fills as much of the buffer as the remaining bytes allow. A real `read` may return one byte while more remain. The loop's handling of any count other than two (src/main.rs:253) is modelled, but a short read in mid-input is not.
- `Disassembler.Reader.ReadInto` has one fault model: at most one byte position where a read fails. Only reads at even offsets from the start are ever made, so a failure position at an odd offset is never reached. Errors that a real reader could raise once and then recover from are not modelled.
- `Disassembler.Disassemble` keeps the offset as an unbounded `nat`, so the `usize` overflow of `offset` is not modelled. `{:0>4x}` is a minimum width, so offsets of 0x10000 and above print with more digits, as `ZeroPad` does.
- Text is modelled as `seq<char>`. Every character the decoder prints is ASCII, so `as_bytes` changes nothing.
