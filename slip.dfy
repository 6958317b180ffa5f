/** SLIP byte stuffing (RFC 1055 framing, without a leading END): an encoder
    that writes into a caller-supplied buffer, and a streaming decoder that
    keeps the unconsumed tail of the wire stream in a fixed-size buffer. */
module Slip {

  newtype Byte = b: int | 0 <= b < 0x100

  const END: Byte := 0xC0
  const ESC: Byte := 0xDB
  const ESC_END: Byte := 0xDC
  const ESC_ESC: Byte := 0xDD

  /** A payload byte that cannot travel unescaped. */
  predicate IsReserved(b: Byte) { b == END || b == ESC }

  // ---------------------------------------------------------------------
  // Encoding: specification
  // ---------------------------------------------------------------------

  /** The wire bytes that one payload byte becomes inside a frame. */
  function Stuff(b: Byte): (r: seq<Byte>)
    ensures |r| == (if IsReserved(b) then 2 else 1)
    ensures END !in r && (r[0] == ESC <==> IsReserved(b))
  {
    if b == END then [ESC, ESC_END]
    else if b == ESC then [ESC, ESC_ESC]
    else [b]
  }

  /** The stuffed body of a frame: every payload byte stuffed, in order. */
  function StuffAll(s: seq<Byte>): seq<Byte>
  {
    if s == [] then [] else Stuff(s[0]) + StuffAll(s[1..])
  }

  /** A whole frame: the stuffed body followed by one END. */
  function Encoded(s: seq<Byte>): seq<Byte>
  {
    StuffAll(s) + [END]
  }

  /** How many payload bytes need an escape. */
  function ReservedCount(s: seq<Byte>): nat
  {
    if s == [] then 0 else (if IsReserved(s[0]) then 1 else 0) + ReservedCount(s[1..])
  }

  lemma {:induction false} StuffAllConcat(a: seq<Byte>, b: seq<Byte>)
    ensures StuffAll(a + b) == StuffAll(a) + StuffAll(b)
  {
    if a == [] {
      assert a + b == b;
    } else {
      assert (a + b)[1..] == a[1..] + b;
      StuffAllConcat(a[1..], b);
    }
  }

  lemma {:induction false} ReservedCountConcat(a: seq<Byte>, b: seq<Byte>)
    ensures ReservedCount(a + b) == ReservedCount(a) + ReservedCount(b)
  {
    if a == [] {
      assert a + b == b;
    } else {
      assert (a + b)[1..] == a[1..] + b;
      ReservedCountConcat(a[1..], b);
    }
  }

  /** The encoder's return value: one byte per payload byte, one more per
      reserved byte, one for the END; never more than 2 * |s| + 1. */
  lemma {:induction false} EncodedLength(s: seq<Byte>)
    ensures |Encoded(s)| == |s| + ReservedCount(s) + 1
    ensures ReservedCount(s) <= |s|
    ensures |Encoded(s)| <= 2 * |s| + 1
  {
    if s != [] {
      EncodedLength(s[1..]);
    }
  }

  lemma {:induction false} StuffAllHasNoEnd(s: seq<Byte>)
    ensures END !in StuffAll(s)
  {
    if s != [] {
      StuffAllHasNoEnd(s[1..]);
    }
  }

  /** END occurs in a frame exactly once: at its last position. */
  lemma EndOnlyAtLast(s: seq<Byte>)
    ensures Encoded(s)[|Encoded(s)| - 1] == END
    ensures forall i :: 0 <= i < |Encoded(s)| - 1 ==> Encoded(s)[i] != END
  {
    StuffAllHasNoEnd(s);
    assert forall i :: 0 <= i < |Encoded(s)| - 1 ==> Encoded(s)[i] == StuffAll(s)[i];
  }

  /** The byte-stuffing examples: a lone END, a lone ESC, the empty
      payload and a payload without reserved bytes. */
  lemma EncodedExamples()
    ensures Encoded([END]) == [ESC, ESC_END, END]
    ensures Encoded([ESC]) == [ESC, ESC_ESC, END]
    ensures Encoded([]) == [END]
    ensures Encoded([0x01, 0x02]) == [0x01, 0x02, END]
  {
    assert [END][1..] == [];
    assert StuffAll([END]) == [ESC, ESC_END];
    assert [ESC][1..] == [];
    assert [0x01, 0x02][1..] == [0x02 as Byte];
    assert [0x02 as Byte][1..] == [];
  }

  // ---------------------------------------------------------------------
  // Encoding: the in-place encoder
  // ---------------------------------------------------------------------

  /** Writes the frame for `input` at the start of `output` and returns its
      length. The caller must supply room for the whole frame: `encode_slip`
      indexes past the end of `output` (a panic) otherwise. */
  method EncodeSlip(input: seq<Byte>, output: array<Byte>) returns (len: nat)
    requires |Encoded(input)| <= output.Length
    modifies output
    ensures len == |Encoded(input)| == |input| + ReservedCount(input) + 1
    ensures output[..len] == Encoded(input)
    ensures output[len..] == old(output[len..])
  {
    EncodedLength(input);
    ghost var mem := output[..];
    var offset := 0;
    ghost var written: seq<Byte> := [];
    for i := 0 to |input|
      invariant StuffedPrefix(input, i, written)
      invariant offset == |written| <= |StuffAll(input)|
      invariant HoldsWritten(output, mem, written)
    {
      StuffStep(input, i, written);
      offset := StuffInto(output, offset, input[i], mem, written);
      written := written + Stuff(input[i]);
    }
    assert input[..|input|] == input;
    output[offset] := END;
    offset := offset + 1;
    len := offset;
    assert HoldsWritten(output, mem, written + [END]);
    WrittenSlices(output, mem, written + [END]);
  }

  /** The body of `encode_slip`'s loop: writes the stuffing of one payload
      byte at `offset` and returns the offset after it. */
  method StuffInto(output: array<Byte>, offset: nat, byte: Byte, ghost mem: seq<Byte>, ghost written: seq<Byte>)
    returns (offset': nat)
    requires HoldsWritten(output, mem, written) && offset == |written|
    requires offset + |Stuff(byte)| <= output.Length
    modifies output
    ensures HoldsWritten(output, mem, written + Stuff(byte)) && offset' == offset + |Stuff(byte)|
  {
    offset' := offset;
    if byte == END {
      output[offset'] := ESC;
      offset' := offset' + 1;
      output[offset'] := ESC_END;
      offset' := offset' + 1;
    } else if byte == ESC {
      output[offset'] := ESC;
      offset' := offset' + 1;
      output[offset'] := ESC_ESC;
      offset' := offset' + 1;
    } else {
      output[offset'] := byte;
      offset' := offset' + 1;
    }
  }

  /** The encoder's loop invariant: `written` is the stuffing of the first
      `i` payload bytes. */
  predicate StuffedPrefix(input: seq<Byte>, i: nat, written: seq<Byte>)
    requires i <= |input|
  {
    written == StuffAll(input[..i])
  }

  /** One step of the encoder's loop: the stuffed prefix grows by the
      stuffing of the next byte and stays within the whole stuffed body. */
  lemma StuffStep(input: seq<Byte>, i: nat, written: seq<Byte>)
    requires i < |input|
    requires StuffedPrefix(input, i, written)
    ensures StuffedPrefix(input, i + 1, written + Stuff(input[i]))
    ensures |written + Stuff(input[i])| <= |StuffAll(input)|
  {
    StuffAllConcat(input[..i], [input[i]]);
    assert input[..i + 1] == input[..i] + [input[i]];
    assert [input[i]][1..] == [];
    StuffAllConcat(input[..i + 1], input[i + 1..]);
    assert input == input[..i + 1] + input[i + 1..];
  }

  // ---------------------------------------------------------------------
  // Decoding: specification of one scan over the buffered bytes
  // ---------------------------------------------------------------------

  /** The variables of the decoder's scan: the pending escape, whether an
      END has been seen, the raw bytes consumed up to and including that END,
      and the decoded bytes written so far (their count is `write_amount`). */
  datatype Scan = Scan(esc: bool, ended: bool, readAmount: nat, out: seq<Byte>)

  const Start: Scan := Scan(false, false, 0, [])

  /** One byte of the scan. Once an END has been seen the scan state no
      longer changes. A byte other than ESC_END or ESC_ESC after an ESC is
      dropped together with the ESC; an ESC after an ESC keeps the escape
      pending; an END after an ESC ends the frame. */
  function Step(st: Scan, b: Byte): Scan
  {
    if st.ended then st
    else if b == END then st.(ended := true, readAmount := st.readAmount + 1)
    else if b == ESC then st.(esc := true, readAmount := st.readAmount + 1)
    else if st.esc then
      st.(esc := false, readAmount := st.readAmount + 1,
          out := if b == ESC_END then st.out + [END]
                 else if b == ESC_ESC then st.out + [ESC]
                 else st.out)
    else st.(readAmount := st.readAmount + 1, out := st.out + [b])
  }

  function Run(st: Scan, s: seq<Byte>): Scan
    decreases |s|
  {
    if s == [] then st else Run(Step(st, s[0]), s[1..])
  }

  lemma {:induction false} RunConcat(st: Scan, a: seq<Byte>, b: seq<Byte>)
    ensures Run(st, a + b) == Run(Run(st, a), b)
    decreases |a|
  {
    if a == [] {
      assert a + b == b;
    } else {
      assert (a + b)[1..] == a[1..] + b;
      RunConcat(Step(st, a[0]), a[1..], b);
    }
  }

  lemma {:induction false} RunSnoc(st: Scan, s: seq<Byte>, b: Byte)
    ensures Run(st, s + [b]) == Step(Run(st, s), b)
  {
    RunConcat(st, s, [b]);
  }

  lemma RunPair(st: Scan, x: Byte, y: Byte)
    ensures Run(st, [x]) == Step(st, x)
    ensures Run(st, [x, y]) == Step(Step(st, x), y)
  {
    assert [x][1..] == [];
    assert [x, y][1..] == [y];
    assert Run(Step(st, x), [y]) == Step(Step(st, x), y) by {
      assert [y][1..] == [];
    }
  }

  lemma {:induction false} RunAfterEnd(st: Scan, s: seq<Byte>)
    requires st.ended
    ensures Run(st, s) == st
    decreases |s|
  {
    if s != [] {
      RunAfterEnd(Step(st, s[0]), s[1..]);
    }
  }

  /** The index of the first END in `s`, or |s| when there is none. */
  function FirstEnd(s: seq<Byte>): (k: nat)
    ensures k <= |s|
    ensures k < |s| ==> s[k] == END
    ensures END !in s[..k]
    ensures k == |s| <==> END !in s
  {
    if s == [] then 0
    else if s[0] == END then 0
    else
      assert s[..1 + FirstEnd(s[1..])] == [s[0]] + s[1..][..FirstEnd(s[1..])];
      1 + FirstEnd(s[1..])
  }

  /** What a scan that starts in a frame in progress does with `s`: it ends
      exactly when `s` holds an END, it consumes `s` up to and including the
      first END (all of `s` when there is none), and it writes fewer decoded
      bytes than it consumes raw bytes, strictly fewer once it has ended. */
  lemma {:induction false} RunShape(st: Scan, s: seq<Byte>)
    requires !st.ended
    ensures Run(st, s).ended <==> END in s
    ensures Run(st, s).readAmount == st.readAmount + (if END in s then FirstEnd(s) + 1 else |s|)
    ensures st.out <= Run(st, s).out
    ensures |Run(st, s).out| - |st.out| + (if END in s then 1 else 0)
            <= Run(st, s).readAmount - st.readAmount
    decreases |s|
  {
    if s != [] {
      var st' := Step(st, s[0]);
      if s[0] == END {
        RunAfterEnd(st', s[1..]);
      } else {
        assert END in s <==> END in s[1..];
        RunShape(st', s[1..]);
      }
    }
  }

  /** The scan of a whole buffer, as `read_sync` performs it from index 0. */
  function ScanBuffer(s: seq<Byte>): (r: Scan)
    ensures r.ended <==> END in s
    ensures r.ended ==> r.readAmount == FirstEnd(s) + 1 && s[r.readAmount - 1] == END
    ensures !r.ended ==> r.readAmount == |s|
    ensures |r.out| + (if r.ended then 1 else 0) <= r.readAmount <= |s|
  {
    RunShape(Start, s);
    Run(Start, s)
  }

  /** Decoding a frame that starts the buffer: whatever follows it, the scan
      ends at its END, consumes exactly the frame and yields the payload. */
  lemma DecodeEncoded(payload: seq<Byte>, rest: seq<Byte>)
    ensures ScanBuffer(Encoded(payload) + rest) == Scan(false, true, |Encoded(payload)|, payload)
  {
    RunStuffed(Start, payload);
    RunConcat(Start, StuffAll(payload), [END] + rest);
    assert Encoded(payload) + rest == StuffAll(payload) + ([END] + rest);
    RunAfterEnd(Step(Run(Start, StuffAll(payload)), END), rest);
  }

  lemma {:induction false} RunStuffed(st: Scan, s: seq<Byte>)
    requires !st.ended && !st.esc
    ensures Run(st, StuffAll(s)) == Scan(false, false, st.readAmount + |StuffAll(s)|, st.out + s)
    decreases |s|
  {
    if s == [] {
      assert st.out + s == st.out;
    } else {
      var b := s[0];
      RunConcat(st, Stuff(b), StuffAll(s[1..]));
      var st' := Run(st, Stuff(b));
      RunStuff(st, b);
      RunStuffed(st', s[1..]);
      assert st.out + [b] + s[1..] == st.out + s;
    }
  }

  /** The scan reads one stuffed byte back as that byte. */
  lemma RunStuff(st: Scan, b: Byte)
    requires !st.ended && !st.esc
    ensures Run(st, Stuff(b)) == Scan(false, false, st.readAmount + |Stuff(b)|, st.out + [b])
  {
    if IsReserved(b) {
      RunPair(st, Stuff(b)[0], Stuff(b)[1]);
      assert Stuff(b) == [Stuff(b)[0], Stuff(b)[1]];
    } else {
      RunPair(st, b, b);
      assert Stuff(b) == [b];
    }
  }

  /** A proper prefix of a frame holds no END, so the scan finds no frame. */
  lemma PartialFrameWaits(payload: seq<Byte>, k: nat)
    requires k < |Encoded(payload)|
    ensures !ScanBuffer(Encoded(payload)[..k]).ended
    ensures ScanBuffer(Encoded(payload)[..k]).readAmount == k
  {
    EndOnlyAtLast(payload);
    var p := Encoded(payload)[..k];
    assert forall i :: 0 <= i < |p| ==> p[i] != END;
  }

  /** ESC then END: the frame ends and the ESC emits nothing. */
  lemma EscThenEnd(prefix: seq<Byte>, rest: seq<Byte>)
    requires END !in prefix
    ensures ScanBuffer(prefix + [ESC, END] + rest).ended
    ensures ScanBuffer(prefix + [ESC, END] + rest).out == ScanBuffer(prefix).out
    ensures ScanBuffer(prefix + [ESC, END] + rest).readAmount == |prefix| + 2
  {
    RunConcat(Start, prefix, [ESC, END] + rest);
    assert prefix + [ESC, END] + rest == prefix + ([ESC, END] + rest);
    var st := Run(Start, prefix);
    RunShape(Start, prefix);
    RunAfterEnd(Step(Step(st, ESC), END), rest);
  }

  /** ESC then a byte that is neither an escape code, ESC nor END: both
      bytes are dropped and the escape is cleared. */
  lemma EscThenOther(prefix: seq<Byte>, b: Byte)
    requires END !in prefix
    requires b != ESC_END && b != ESC_ESC && b != ESC && b != END
    ensures !ScanBuffer(prefix + [ESC, b]).esc
    ensures ScanBuffer(prefix + [ESC, b]).out == ScanBuffer(prefix).out
  {
    RunConcat(Start, prefix, [ESC, b]);
    RunShape(Start, prefix);
    RunPair(Run(Start, prefix), ESC, b);
  }

  /** ESC ESC: nothing is emitted and the escape stays pending. */
  lemma EscThenEsc(prefix: seq<Byte>)
    requires END !in prefix
    ensures ScanBuffer(prefix + [ESC, ESC]).esc
    ensures ScanBuffer(prefix + [ESC, ESC]).out == ScanBuffer(prefix).out
  {
    RunConcat(Start, prefix, [ESC, ESC]);
    RunShape(Start, prefix);
    RunPair(Run(Start, prefix), ESC, ESC);
  }

  // ---------------------------------------------------------------------
  // Decoding: the buffer after a scan
  // ---------------------------------------------------------------------

  /** The whole buffer memory after `read_sync` on `mem` with `index` valid
      bytes: when a frame ended, the bytes after it are moved down to index 0
      and the rest of memory keeps its old bytes; otherwise nothing changes. */
  function Compacted(mem: seq<Byte>, index: nat): (r: seq<Byte>)
    requires index <= |mem|
    ensures |r| == |mem|
  {
    var sc := ScanBuffer(mem[..index]);
    if sc.ended then mem[sc.readAmount..index] + mem[index - sc.readAmount..] else mem
  }

  /** The memory of `res` after a scan wrote `out` at its start. */
  function Overwritten(mem: seq<Byte>, out: seq<Byte>): seq<Byte>
    requires |out| <= |mem|
  {
    out + mem[|out|..]
  }

  lemma OverwrittenFrom(mem: seq<Byte>, out: seq<Byte>, after: seq<Byte>)
    requires |out| <= |mem| == |after|
    requires forall k :: 0 <= k < |out| ==> after[k] == out[k]
    requires forall k :: |out| <= k < |after| ==> after[k] == mem[k]
    ensures after == Overwritten(mem, out)
  {
  }

  /** The buffer memory after the reader stored `chunk` at `index`. */
  function Filled(mem: seq<Byte>, index: nat, chunk: seq<Byte>): seq<Byte>
    requires index + |chunk| <= |mem|
  {
    mem[..index] + chunk + mem[index + |chunk|..]
  }

  /** A buffer whose valid bytes hold no END: `read_sync` finds no frame,
      consumes nothing and leaves the buffer memory as it was. */
  lemma NoEndLeavesBuffer(mem: seq<Byte>, index: nat)
    requires index <= |mem|
    requires forall k :: 0 <= k < index ==> mem[k] != END
    ensures !ScanBuffer(mem[..index]).ended
    ensures ScanBuffer(mem[..index]).readAmount == index
    ensures Compacted(mem, index) == mem
  {
    assert END !in mem[..index];
  }

  /** `read_sync` on a buffer holding a frame followed by anything: it
      yields the payload, and what follows the frame is left at the front,
      as the whole of the remaining valid data. */
  lemma ReadSyncRoundTrip(mem: seq<Byte>, index: nat, payload: seq<Byte>, rest: seq<Byte>)
    requires index <= |mem|
    requires mem[..index] == Encoded(payload) + rest
    ensures ScanBuffer(mem[..index]).ended
    ensures ScanBuffer(mem[..index]).out == payload
    ensures index - ScanBuffer(mem[..index]).readAmount == |rest|
    ensures |Compacted(mem, index)| == |mem|
    ensures Compacted(mem, index)[..|rest|] == rest
  {
    DecodeEncoded(payload, rest);
    var ra := |Encoded(payload)|;
    assert mem[ra..index] == mem[..index][ra..] == rest;
  }

  /** The decoder's loop invariant: `st` is the scan of the first `i` of
      the valid bytes `s`. */
  predicate ScannedPrefix(s: seq<Byte>, i: nat, st: Scan)
    requires i <= |s|
  {
    st == Run(Start, s[..i])
  }

  /** One step of `read_sync`'s scan over the valid bytes `s`: the scan of
      the next prefix is one more step, and its output never outgrows the
      output of the whole scan. */
  lemma ScanStep(s: seq<Byte>, i: nat, st: Scan)
    requires i < |s|
    requires ScannedPrefix(s, i, st)
    ensures ScannedPrefix(s, i + 1, Step(st, s[i]))
    ensures |Step(st, s[i]).out| <= |Run(Start, s).out|
    ensures !Step(st, s[i]).ended ==> Step(st, s[i]).readAmount == i + 1
  {
    assert s[..i + 1] == s[..i] + [s[i]];
    assert s[..i + 1] + s[i + 1..] == s;
    RunSnoc(Start, s[..i], s[i]);
    RunConcat(Start, s[..i + 1], s[i + 1..]);
    var next := Run(Start, s[..i + 1]);
    RunShape(Start, s[..i + 1]);
    if next.ended {
      RunAfterEnd(next, s[i + 1..]);
    } else {
      RunShape(next, s[i + 1..]);
    }
  }

  /** The buffer after the loop of `read_sync` when a frame of `ra` raw
      bytes ended: the `index - ra` bytes after the frame moved to the front,
      every other byte as before. */
  lemma CompactedFrom(mem: seq<Byte>, index: nat, after: seq<Byte>, ra: nat)
    requires index <= |mem| == |after|
    requires ScanBuffer(mem[..index]).ended && ScanBuffer(mem[..index]).readAmount == ra
    requires forall k :: 0 <= k < index - ra ==> after[k] == mem[ra + k]
    requires forall k :: index - ra <= k < |after| ==> after[k] == mem[k]
    ensures after == Compacted(mem, index)
  {
    ShiftedFrom(mem, index, after, ra);
    var sc := ScanBuffer(mem[..index]);
    assert Compacted(mem, index) == mem[sc.readAmount..index] + mem[index - sc.readAmount..];
  }

  lemma ShiftedFrom(mem: seq<Byte>, index: nat, after: seq<Byte>, ra: nat)
    requires ra <= index <= |mem| == |after|
    requires forall k :: 0 <= k < index - ra ==> after[k] == mem[ra + k]
    requires forall k :: index - ra <= k < |after| ==> after[k] == mem[k]
    ensures after == mem[ra..index] + mem[index - ra..]
  {
    var c := mem[ra..index] + mem[index - ra..];
    forall k | 0 <= k < |after|
      ensures after[k] == c[k]
    {
      if k < index - ra {
        assert c[k] == mem[ra + k];
      } else {
        assert c[k] == mem[k];
      }
    }
  }

  // ---------------------------------------------------------------------
  // The streaming decoder
  // ---------------------------------------------------------------------

  /** `res` holds `out` at its start and its old bytes `mem` after that. */
  ghost predicate HoldsWritten(res: array<Byte>, mem: seq<Byte>, out: seq<Byte>)
    reads res
  {
    && |out| <= res.Length == |mem|
    && (forall k :: 0 <= k < |out| ==> res[k] == out[k])
    && (forall k :: |out| <= k < res.Length ==> res[k] == mem[k])
  }

  lemma WrittenSlices(res: array<Byte>, mem: seq<Byte>, out: seq<Byte>)
    requires HoldsWritten(res, mem, out)
    ensures res[..|out|] == out && res[|out|..] == mem[|out|..]
  {
  }

  /** `buf` holds the `c` bytes of `mem` from index `ra` on at its start,
      and the bytes of `mem` everywhere after them. */
  ghost predicate HoldsShifted(buf: array<Byte>, mem: seq<Byte>, ra: int, c: int)
    reads buf
  {
    && 0 <= ra && 0 <= c && ra + c <= buf.Length == |mem|
    && (forall k :: 0 <= k < c ==> buf[k] == mem[ra + k])
    && (forall k :: c <= k < buf.Length ==> buf[k] == mem[k])
  }

  /** A decoder with a buffer of `maxLen` bytes, of which the first
      `bufIndex` are received and not yet consumed. */
  class Decoder {
    const maxLen: nat
    const buf: array<Byte>
    var bufIndex: nat

    ghost predicate Valid()
      reads this
    {
      buf.Length == maxLen && bufIndex <= maxLen
    }

    /** The bytes received and not yet consumed. */
    function Pending(): seq<Byte>
      reads this, buf
      requires Valid()
    {
      buf[..bufIndex]
    }

    constructor (maxLen: nat)
      ensures Valid() && fresh(buf)
      ensures this.maxLen == maxLen && bufIndex == 0
      ensures buf[..] == seq(maxLen, _ => 0)
    {
      this.maxLen := maxLen;
      buf := new Byte[maxLen](_ => 0);
      bufIndex := 0;
    }

    /** Decodes the first complete frame in the buffer into `res` and returns
        its length, or returns 0 when the buffer holds no END yet. `read_sync`
        writes decoded bytes into `res` as it scans, even when no END is
        found, and indexes past its end (a panic) when it is too short. */
    method ReadSync(res: array<Byte>) returns (n: nat)
      requires Valid() && res != buf
      requires |ScanBuffer(Pending()).out| <= res.Length
      modifies this, buf, res
      ensures Valid()
      ensures var sc := ScanBuffer(old(Pending()));
        n == (if sc.ended then |sc.out| else 0)
      ensures var sc := ScanBuffer(old(Pending()));
        bufIndex == old(bufIndex) - (if sc.ended then sc.readAmount else 0)
      ensures res[..] == Overwritten(old(res[..]), ScanBuffer(old(Pending())).out)
      ensures buf[..] == Compacted(old(buf[..]), old(bufIndex))
    {
      var ended, readAmount, writeAmount := ScanAndCompact(res);
      if ended {
        bufIndex := bufIndex - readAmount;
        n := writeAmount;
      } else {
        n := 0;
      }
    }

    /** The loop of `read_sync`: scans the valid bytes from index 0,
        un-escaping into `res` up to the first END, and moves every valid
        byte after that END down to the front of the buffer. Returns whether
        an END was found, the raw bytes consumed and the decoded bytes
        written. */
    method ScanAndCompact(res: array<Byte>) returns (ended: bool, readAmount: nat, writeAmount: nat)
      requires Valid() && res != buf
      requires |ScanBuffer(Pending()).out| <= res.Length
      modifies buf, res
      ensures var sc := ScanBuffer(old(Pending()));
        ended == sc.ended && readAmount == sc.readAmount && writeAmount == |sc.out|
      ensures res[..] == Overwritten(old(res[..]), ScanBuffer(old(Pending())).out)
      ensures buf[..] == Compacted(old(buf[..]), bufIndex)
    {
      ghost var mem := buf[..];
      ghost var resMem := res[..];
      ghost var pending := buf[..bufIndex];
      ghost var final := Run(Start, pending);
      ghost var out: seq<Byte> := [];
      var esc := false;
      ended := false;
      readAmount := 0;
      writeAmount := 0;
      var copyI := 0;
      for i := 0 to bufIndex
        modifies buf, res
        invariant ScannedPrefix(pending, i, Scan(esc, ended, readAmount, out))
        invariant writeAmount == |out| <= |final.out|
        invariant !ended ==> readAmount == i
        invariant readAmount <= i
        invariant HoldsWritten(res, resMem, out)
        invariant copyI == if ended then i - readAmount else 0
        invariant HoldsShifted(buf, mem, readAmount, copyI)
      {
        ScanStep(pending, i, Scan(esc, ended, readAmount, out));
        var byte := buf[i];
        if ended {
          copyI := MoveDown(i, copyI, mem, readAmount);
        } else {
          esc, ended, readAmount, writeAmount, out := Unescape(res, byte, esc, readAmount, writeAmount, resMem, out);
        }
      }
      assert pending[..bufIndex] == pending;
      OverwrittenFrom(resMem, out, res[..]);
      if ended {
        CompactedFrom(mem, bufIndex, buf[..], readAmount);
      }
    }

    /** The branch of `read_sync`'s loop after the END: moves byte `i` down
        to `copyI`, the next free place at the front. */
    method MoveDown(i: nat, copyI: nat, ghost mem: seq<Byte>, ghost readAmount: nat) returns (copyI': nat)
      requires i < buf.Length && i == readAmount + copyI
      requires HoldsShifted(buf, mem, readAmount, copyI)
      modifies buf
      ensures HoldsShifted(buf, mem, readAmount, copyI') && copyI' == copyI + 1
    {
      buf[copyI] := buf[i];
      copyI' := copyI + 1;
    }

    /** The branch of `read_sync`'s loop before any END: consumes one raw
        byte, un-escaping it into `res` at `writeAmount` when it stands for
        a payload byte, exactly as one step of the scan does. */
    method Unescape(res: array<Byte>, byte: Byte, esc: bool, readAmount: nat, writeAmount: nat,
                    ghost resMem: seq<Byte>, ghost out: seq<Byte>)
      returns (esc': bool, ended': bool, readAmount': nat, writeAmount': nat, ghost out': seq<Byte>)
      requires HoldsWritten(res, resMem, out) && writeAmount == |out|
      requires |Step(Scan(esc, false, readAmount, out), byte).out| <= res.Length
      modifies res
      ensures Scan(esc', ended', readAmount', out') == Step(Scan(esc, false, readAmount, out), byte)
      ensures HoldsWritten(res, resMem, out') && writeAmount' == |out'|
      ensures readAmount' == readAmount + 1
    {
      esc', ended', writeAmount', out' := esc, false, writeAmount, out;
      readAmount' := readAmount + 1;
      if byte == END {
        ended' := true;
      } else if byte == ESC {
        esc' := true;
      } else {
        if esc {
          esc' := false;
          if byte == ESC_END {
            res[writeAmount] := END;
            writeAmount' := writeAmount + 1;
            out' := out + [END];
          } else if byte == ESC_ESC {
            res[writeAmount] := ESC;
            writeAmount' := writeAmount + 1;
            out' := out + [ESC];
          }
        } else {
          res[writeAmount] := byte;
          writeAmount' := writeAmount + 1;
          out' := out + [byte];
        }
      }
    }

    /** The reader filling the free part of the buffer with `chunk`. */
    method Store(chunk: seq<Byte>)
      requires Valid() && |chunk| <= maxLen - bufIndex
      modifies buf
      ensures buf[..] == Filled(old(buf[..]), bufIndex, chunk)
    {
      ghost var filled := Filled(buf[..], bufIndex, chunk);
      forall k | 0 <= k < |chunk| {
        buf[bufIndex + k] := chunk[k];
      }
      assert buf[..] == filled;
    }

    /** Stores a chunk from the reader in the free part of the buffer, then
        decodes as `ReadSync` does. The chunk length is the count the reader
        returns, never more than the free space it is given. */
    method Read(chunk: seq<Byte>, res: array<Byte>) returns (n: nat)
      requires Valid() && res != buf
      requires |chunk| <= maxLen - bufIndex
      requires |ScanBuffer(Pending() + chunk).out| <= res.Length
      modifies this, buf, res
      ensures Valid()
      ensures var sc := ScanBuffer(old(Pending()) + chunk);
        n == (if sc.ended then |sc.out| else 0)
      ensures var sc := ScanBuffer(old(Pending()) + chunk);
        bufIndex == old(bufIndex) + |chunk| - (if sc.ended then sc.readAmount else 0)
      ensures res[..] == Overwritten(old(res[..]), ScanBuffer(old(Pending()) + chunk).out)
      ensures buf[..] == Compacted(Filled(old(buf[..]), old(bufIndex), chunk), old(bufIndex) + |chunk|)
    {
      Store(chunk);
      bufIndex := bufIndex + |chunk|;
      assert Pending() == old(Pending()) + chunk;
      n := ReadSync(res);
    }
  }
  // ---------------------------------------------------------------------
  // Resuming a frame across reads
  // ---------------------------------------------------------------------

  /** The bytes a sequence of reads delivers, in order. */
  function Flatten(chunks: seq<seq<Byte>>): seq<Byte>
  {
    if chunks == [] then [] else Flatten(chunks[..|chunks| - 1]) + chunks[|chunks| - 1]
  }

  /** The bytes of the first `j` reads start the bytes of all of them. */
  lemma {:induction false} FlattenPrefix(chunks: seq<seq<Byte>>, j: nat)
    requires j <= |chunks|
    ensures Flatten(chunks[..j]) <= Flatten(chunks)
    decreases |chunks|
  {
    if j < |chunks| {
      var n := |chunks| - 1;
      FlattenPrefix(chunks[..n], j);
      assert chunks[..n][..j] == chunks[..j];
    } else {
      assert chunks[..j] == chunks;
    }
  }

  /** A read before the one that brings the END: what has arrived so far
      is a proper prefix of the frame, so no frame ends. */
  lemma EarlyRead(chunks: seq<seq<Byte>>, payload: seq<Byte>, rest: seq<Byte>, j: nat)
    requires j + 1 < |chunks|
    requires Flatten(chunks) == Encoded(payload) + rest
    requires |Flatten(chunks[..|chunks| - 1])| < |Encoded(payload)|
    ensures Flatten(chunks[..j + 1]) == Flatten(chunks[..j]) + chunks[j]
    ensures |Flatten(chunks[..j + 1])| < |Encoded(payload)|
    ensures !ScanBuffer(Flatten(chunks[..j + 1])).ended
  {
    var n := |chunks| - 1;
    assert chunks[..j + 1][..j] == chunks[..j];
    FlattenPrefix(chunks[..n], j + 1);
    assert chunks[..n][..j + 1] == chunks[..j + 1];
    FlattenPrefix(chunks, n);
    var p := Flatten(chunks[..j + 1]);
    assert p == Encoded(payload)[..|p|];
    PartialFrameWaits(payload, |p|);
  }

  /** After a read that finds no frame, the valid bytes are the old ones
      followed by the chunk. */
  lemma NoFrameKeepsPending(mem: seq<Byte>, index: nat, chunk: seq<Byte>)
    requires index + |chunk| <= |mem|
    requires !ScanBuffer(mem[..index] + chunk).ended
    ensures Compacted(Filled(mem, index, chunk), index + |chunk|)[..index + |chunk|] == mem[..index] + chunk
  {
    FilledPrefix(mem, index, chunk);
  }

  lemma FilledPrefix(mem: seq<Byte>, index: nat, chunk: seq<Byte>)
    requires index + |chunk| <= |mem|
    ensures Filled(mem, index, chunk)[..index + |chunk|] == mem[..index] + chunk
  {
  }

  /** A read before the one that brings the END: it returns 0 and the
      valid bytes become everything delivered so far. */
  method ReadEarly(d: Decoder, res: array<Byte>, payload: seq<Byte>, rest: seq<Byte>, chunks: seq<seq<Byte>>, j: nat)
    returns (c: nat)
    requires j + 1 < |chunks|
    requires Flatten(chunks) == Encoded(payload) + rest
    requires |Flatten(chunks[..|chunks| - 1])| < |Encoded(payload)|
    requires d.Valid() && res.Length == d.maxLen && res != d.buf
    requires |Encoded(payload)| + |rest| <= d.maxLen
    requires d.Pending() == Flatten(chunks[..j])
    modifies d, d.buf, res
    ensures d.Valid() && d.Pending() == Flatten(chunks[..j + 1])
    ensures c == 0
  {
    EarlyRead(chunks, payload, rest, j);
    ghost var before := d.buf[..];
    ghost var index := d.bufIndex;
    assert |ScanBuffer(Flatten(chunks[..j + 1])).out| <= d.maxLen;
    c := d.Read(chunks[j], res);
    NoFrameKeepsPending(before, index, chunks[j]);
  }

  /** The read that brings the END: it returns the payload, written at the
      start of `res`, and leaves the bytes after the frame as the valid
      bytes. */
  method ReadLast(d: Decoder, res: array<Byte>, payload: seq<Byte>, rest: seq<Byte>, last: seq<Byte>)
    returns (c: nat)
    requires d.Valid() && res.Length == d.maxLen && res != d.buf
    requires d.Pending() + last == Encoded(payload) + rest
    requires |Encoded(payload)| + |rest| <= d.maxLen
    modifies d, d.buf, res
    ensures d.Valid() && d.Pending() == rest
    ensures c == |payload| <= res.Length && res[..c] == payload
  {
    EncodedLength(payload);
    DecodeEncoded(payload, rest);
    ghost var before := d.buf[..];
    ghost var index := d.bufIndex;
    c := d.Read(last, res);
    FilledPrefix(before, index, last);
    ReadSyncRoundTrip(Filled(before, index, last), index + |last|, payload, rest);
  }

  /** A frame, possibly followed by more bytes, that reaches a fresh decoder
      in any number of reads, the END arriving in the last one: every read
      before it returns 0, the last one returns the payload, and the bytes
      after the frame are left as the valid bytes. */
  method ReadFrameInChunks(payload: seq<Byte>, rest: seq<Byte>, chunks: seq<seq<Byte>>, maxLen: nat)
    returns (counts: seq<nat>, decoded: seq<Byte>, left: seq<Byte>)
    requires |chunks| > 0
    requires Flatten(chunks) == Encoded(payload) + rest
    requires |Flatten(chunks[..|chunks| - 1])| < |Encoded(payload)|
    requires |Encoded(payload)| + |rest| <= maxLen
    ensures |counts| == |chunks|
    ensures forall t :: 0 <= t < |chunks| - 1 ==> counts[t] == 0
    ensures counts[|chunks| - 1] == |payload|
    ensures decoded == payload
    ensures left == rest
  {
    var d := new Decoder(maxLen);
    var res := new Byte[maxLen](_ => 0);
    var n := |chunks| - 1;
    counts := [];
    for j := 0 to n
      invariant d.Valid() && d.maxLen == maxLen && res.Length == maxLen && res != d.buf
      invariant d.Pending() == Flatten(chunks[..j])
      invariant |counts| == j && forall t :: 0 <= t < j ==> counts[t] == 0
    {
      var c := ReadEarly(d, res, payload, rest, chunks, j);
      counts := counts + [c];
    }
    assert chunks[..n + 1] == chunks;
    var c := ReadLast(d, res, payload, rest, chunks[n]);
    counts := counts + [c];
    decoded := res[..c];
    left := d.Pending();
  }
}
