/** The log reader's code (db/log_reader.cc), as recovery uses it: from the start of the file.
    Block by block it finds what LogContents says the file holds, damaged or not.
 */
module LogReaders {
  import opened Coding
  import opened Comparator
  import opened LogContents
  import opened LogFormat
  import opened Options

  class Reader {
    const extend: Checksum
    const checksum: bool
    const file: Bytes
    var filePos: nat     // how much has been read from the file
    var buffer: Bytes    // the part of it not yet looked at
    var eof: bool        // whether the last read came up short
    var drops: seq<nat>  // the sizes reported as corrupted

    constructor (extend: Checksum, file: Bytes, checksum: bool)
      ensures Valid() && Pos() == 0 && drops == []
      ensures this.extend == extend && this.file == file && this.checksum == checksum
    {
      this.extend, this.file, this.checksum := extend, file, checksum;
      filePos, buffer, eof, drops := 0, [], false, [];
    }

    ghost predicate Valid()
      reads this`filePos, this`buffer, this`eof
    {
      && |buffer| <= filePos <= |file| && buffer == file[filePos - |buffer|..filePos]
      && if eof then filePos == |file| && |buffer| <= InBlock(filePos)
         else InBlock(filePos) == 0 && |buffer| <= BLOCK
    }

    /** Where the reader stands in the file. */
    ghost function Pos(): (p: nat)
      requires Valid()
      reads this`filePos, this`buffer, this`eof
      ensures p <= |file|
    {
      filePos - |buffer|
    }

    /** file_->Read of one block */
    method ReadBlock()
      requires filePos <= |file|
      modifies this`filePos, this`buffer
      ensures filePos == (if old(filePos) + BLOCK <= |file| then old(filePos) + BLOCK else |file|)
      ensures buffer == file[old(filePos)..filePos]
    {
      var end := if filePos + BLOCK <= |file| then filePos + BLOCK else |file|;
      buffer := file[filePos..end];
      filePos := end;
    }

    method ReportCorruption(bytes: nat)
      modifies this`drops
      ensures drops == old(drops) + [bytes]
    {
      drops := drops + [bytes];
    }

    /** The part of ReadPhysicalRecord that has a header to look at. */
    method ParseHeader() returns (kind: nat, fragment: Bytes)
      requires Valid() && |buffer| >= HEADER_SIZE
      modifies this`buffer, this`drops
      ensures Valid()
      ensures var r := PieceAt(extend, checksum, file, old(Pos()), filePos, eof);
              kind == r.kind && fragment == r.payload && Pos() == r.next && drops == old(drops) + r.lost
    {
      hide Unmask, Unfixed, InBlock, PieceAt;
      ghost var p := Pos();
      HeaderRead(extend, checksum, file, p, filePos, eof);
      fragment := [];
      var a, b := buffer[4], buffer[5];
      var kindByte := buffer[6];
      var length := a as int + 256 * b as int;
      if HEADER_SIZE + length > |buffer| {
        var dropSize := |buffer|;
        buffer := [];
        if !eof {
          ReportCorruption(dropSize);
          return BAD_RECORD, fragment;
        }
        return EOF, fragment;
      }
      if kindByte == ZERO_TYPE && length == 0 {
        buffer := [];
        return BAD_RECORD, fragment;
      }
      if checksum {
        var expected := Unmask(Unfixed(buffer[..4]));
        var actual := extend(0, buffer[6..HEADER_SIZE + length]);
        if actual != expected {
          var dropSize := |buffer|;
          buffer := [];
          ReportCorruption(dropSize);
          return BAD_RECORD, fragment;
        }
      }
      fragment := buffer[HEADER_SIZE..HEADER_SIZE + length];
      InBuffer(file, p, filePos, HEADER_SIZE + length, |buffer|);
      buffer := buffer[HEADER_SIZE + length..];
      return kindByte, fragment;
    }

    /** The header in the buffer is the one in the file. */
    static lemma HeaderRead(extend: Checksum, checksum: bool, file: Bytes, p: nat, end: nat, eof: bool)
      requires p + HEADER_SIZE <= end <= |file|
      ensures var b := file[p..end];
              var length := b[4] as int + 256 * b[5] as int;
              && Unfixed(b[..4]) < MAX32
              && PieceAt(extend, checksum, file, p, end, eof) ==
                 if HEADER_SIZE + length > |b| then
                   if eof then Piece(EOF, [], |file|, []) else Piece(BAD_RECORD, [], end, [|b|])
                 else if b[6] == ZERO_TYPE && length == 0 then Piece(BAD_RECORD, [], end, [])
                 else if checksum && extend(0, b[6..HEADER_SIZE + length]) != Unmask(Unfixed(b[..4])) then
                   Piece(BAD_RECORD, [], end, [|b|])
                 else Piece(b[6], b[HEADER_SIZE..HEADER_SIZE + length], p + HEADER_SIZE + length, [])
    {
      hide Unfixed, Unmask;
      var b := file[p..end];
      var length := StoredLength(file, p);
      StoredBound(file, p);
      InBuffer(file, p, end, 0, 4);
      if HEADER_SIZE + length <= end - p {
        InBuffer(file, p, end, 6, HEADER_SIZE + length);
        InBuffer(file, p, end, HEADER_SIZE, HEADER_SIZE + length);
      }
    }

    /** A slice of the buffer is a slice of the file. */
    static lemma InBuffer(file: Bytes, p: nat, end: nat, i: nat, j: nat)
      requires p <= end <= |file| && i <= j <= end - p
      ensures file[p..end][i..j] == file[p + i..p + j]
    {
      forall k | 0 <= k < j - i
        ensures file[p..end][i..j][k] == file[p + i..p + j][k]
      {
        assert file[p..end][i + k] == file[p + i + k];
      }
    }

    method ReadPhysicalRecord() returns (kind: nat, fragment: Bytes)
      requires Valid()
      modifies this
      ensures Valid()
      ensures var r := NextPiece(extend, checksum, file, old(Pos()));
              kind == r.kind && fragment == r.payload && Pos() == r.next && drops == old(drops) + r.lost
    {
      hide PieceAt, InBlock, Start, BufferEnd, BlockEnd;
      ghost var p := Pos();
      fragment := [];
      StartHere(file, p, filePos, |buffer|, eof);
      while true
        invariant Valid() && drops == old(drops)
        invariant Start(file, Pos()) == Start(file, p) && (Pos() == p || Pos() == Start(file, p))
        decreases if eof || |buffer| >= HEADER_SIZE then 0 else 1
      {
        if |buffer| < HEADER_SIZE {
          if !eof {
            BlockRead(file, Pos(), filePos, |buffer|);
            ReadBlock();
            if |buffer| < BLOCK {
              eof := true;
            }
            continue;
          } else {
            LastBytes(file, Pos(), |buffer|);
            buffer := [];
            return EOF, fragment;
          }
        }
        HeaderAhead(file, Pos(), filePos, |buffer|, eof);
        kind, fragment := ParseHeader();
        return;
      }
    }

    static lemma StartHere(file: Bytes, p: nat, filePos: nat, size: nat, eof: bool)
      requires p + size == filePos <= |file|
      requires if eof then filePos == |file| && size <= InBlock(filePos) else InBlock(filePos) == 0 && size <= BLOCK
      ensures Start(file, Start(file, p)) == Start(file, p)
    {
    }

    /** With a block used up, the next header is at the start of the next. */
    static lemma BlockRead(file: Bytes, p: nat, filePos: nat, size: nat)
      requires p + size == filePos <= |file| && InBlock(filePos) == 0 && size < HEADER_SIZE
      ensures Start(file, p) == filePos && Start(file, filePos) == filePos
      ensures filePos + BLOCK <= |file| ==> InBlock(filePos + BLOCK) == 0
      ensures filePos + BLOCK > |file| ==> InBlock(|file|) == |file| - filePos
    {
    }

    static lemma LastBytes(file: Bytes, p: nat, size: nat)
      requires p + size == |file| && size < HEADER_SIZE && size <= InBlock(|file|)
      ensures var q := Start(file, p); q == p && BufferEnd(file, q) - q < HEADER_SIZE
    {
    }

    /** The buffer ends where the block or the file does. */
    static lemma HeaderAhead(file: Bytes, p: nat, filePos: nat, size: nat, eof: bool)
      requires p + size == filePos <= |file| && size >= HEADER_SIZE
      requires if eof then filePos == |file| && size <= InBlock(filePos) else InBlock(filePos) == 0 && size <= BLOCK
      ensures Start(file, p) == p && BufferEnd(file, p) == filePos && (eof <==> BlockEnd(p) > |file|)
    {
    }

    method ReadRecord() returns (ok: bool, record: Bytes)
      requires Valid()
      modifies this
      ensures Valid()
      ensures var r := ReadOne(extend, checksum, file, old(Pos()));
              && ok == r.record.Some? && (ok ==> record == r.record.value)
              && Pos() == r.next && drops == old(drops) + r.lost
    {
      hide NextPiece, InBlock, ReadOn, Left, Valid, Pos;
      var scratch := [];
      record := [];
      var inFragmentedRecord := false;
      ghost var whole, before := ReadOne(extend, checksum, file, Pos()), drops;
      ReadStarts(whole, before);
      while true
        invariant Valid() && (!inFragmentedRecord ==> scratch == [])
        invariant Left(whole, before, drops,
                       ReadOn(extend, checksum, file, Pos(), ScratchOf(inFragmentedRecord, scratch)))
        decreases |file| - Pos()
      {
        OnePiece(extend, checksum, file, Pos(), inFragmentedRecord, scratch, whole, before, drops);
        var kind, fragment := ReadPhysicalRecord();
        if kind == FULL_TYPE {
          if inFragmentedRecord && scratch != [] {
            ReportCorruption(|scratch|);
          }
          return true, fragment;
        } else if kind == FIRST_TYPE {
          if inFragmentedRecord && scratch != [] {
            ReportCorruption(|scratch|);
          }
          scratch := fragment;
          inFragmentedRecord := true;
        } else if kind == MIDDLE_TYPE {
          if !inFragmentedRecord {
            ReportCorruption(|fragment|);
          } else {
            scratch := scratch + fragment;
          }
        } else if kind == LAST_TYPE {
          if !inFragmentedRecord {
            ReportCorruption(|fragment|);
          } else {
            scratch := scratch + fragment;
            return true, scratch;
          }
        } else if kind == EOF {
          return false, record;
        } else if kind == BAD_RECORD {
          if inFragmentedRecord {
            ReportCorruption(|scratch|);
            inFragmentedRecord := false;
            scratch := [];
          }
        } else {
          ReportCorruption(|fragment| + if inFragmentedRecord then |scratch| else 0);
          inFragmentedRecord := false;
          scratch := [];
        }
      }
      ok := false;
    }

    static function ScratchOf(fragmented: bool, scratch: Bytes): Option<Bytes> {
      if fragmented then Some(scratch) else None
    }

    /** What is still to be read gives the record, and what is still to be reported. */
    static ghost predicate Left(whole: Reading, before: seq<nat>, drops: seq<nat>, r: Reading) {
      whole.record == r.record && whole.next == r.next && before + whole.lost == drops + r.lost
    }

    static lemma ReadStarts(whole: Reading, before: seq<nat>)
      ensures Left(whole, before, before, whole)
    {
    }

    /** One round of the loop. */
    static lemma OnePiece(extend: Checksum, checksum: bool, file: Bytes, p: nat, fragmented: bool, scratch: Bytes,
                          whole: Reading, before: seq<nat>, drops: seq<nat>)
      requires p <= |file|
      requires Left(whole, before, drops, ReadOn(extend, checksum, file, p, ScratchOf(fragmented, scratch)))
      ensures var piece, gathered := NextPiece(extend, checksum, file, p), ScratchOf(fragmented, scratch);
              var reported := Reported(piece, gathered);
              var drops' := if reported == [] then drops + piece.lost else drops + piece.lost + reported;
              if piece.kind == EOF || Completed(piece, gathered).Some? then
                whole.record == Completed(piece, gathered) && whole.next == piece.next && before + whole.lost == drops'
              else
                Left(whole, before, drops', ReadOn(extend, checksum, file, piece.next, Gather(piece, gathered)))
    {
      hide NextPiece, Reported;
    }

    /** The loop of recovery: every record up to the first that cannot be read. */
    method ReadAll() returns (out: seq<Bytes>)
      requires Valid() && Pos() == 0 && drops == []
      modifies this
      ensures Replay(out, drops) == ReplayOf(extend, checksum, file)
    {
      hide ReadOne, InBlock;
      out := [];
      ghost var whole := ReplayOf(extend, checksum, file);
      var going := true;
      while going
        invariant Valid()
        invariant var rest := if going then ReplayFrom(extend, checksum, file, Pos()) else Replay([], []);
                  whole == Replay(out + rest.records, drops + rest.lost)
        decreases going, |file| - Pos()
      {
        var ok, record := ReadRecord();
        if ok {
          out := out + [record];
        } else {
          going := false;
        }
      }
    }
  }
}
