/** The XER text of an INTEGER: the printer `INTEGER__dump` and the reader
    `INTEGER__xer_body_decode`. */
module Xer {
  import opened Words
  import opened Wrappers
  import opened TwosComplement
  import opened Integer
  import opened EnumMap
  import Decimal

  // ----- hexadecimal text

  /** Entry `d` of the table "0123456789ABCDEF". */
  function HexChar(d: nat): (c: char)
    requires d < 16
    ensures IsHex(c) && HexValue(c) == d && !IsSpace(c)
  {
    if d < 10 then ('0' as int + d) as char else ('A' as int + d - 10) as char
  }

  predicate IsHexLetter(c: char) {
    'A' <= c <= 'F' || 'a' <= c <= 'f'
  }

  predicate IsHex(c: char) {
    Decimal.IsDigit(c) || IsHexLetter(c)
  }

  function HexValue(c: char): (v: nat)
    requires IsHex(c)
    ensures v < 16
  {
    if Decimal.IsDigit(c) then Decimal.Digit(c)
    else if c < 'a' then c as int - 'A' as int + 10
    else c as int - 'a' as int + 10
  }

  function HexPair(b: u8): (t: string)
    ensures |t| == 2
  {
    [HexChar(b / 16), HexChar(b % 16)]
  }

  /** Two digits and a colon for every octet. */
  function HexColons(s: seq<u8>): (t: string)
    ensures |t| == 3 * |s|
  {
    if s == [] then [] else HexColons(s[..|s| - 1]) + HexPair(s[|s| - 1]) + [':']
  }

  /** Octets in hexadecimal, joined by colons. */
  function HexText(s: seq<u8>): string {
    var t := HexColons(s);
    if t == [] then [] else t[..|t| - 1]
  }

  // ----- decimal text, as `printf` writes it

  function DecimalText(v: int): string {
    if v < 0 then "-" + Decimal.NaturalText(-v) else Decimal.NaturalText(v)
  }

  // ----- the printer

  function IsUnsigned(sp: Option<Specifics>): bool {
    sp.Some? && sp.value.isUnsigned
  }

  function IsStrict(sp: Option<Specifics>): bool {
    sp.Some? && sp.value.strict
  }

  /** The entry printed for a number; a number that is negative as a signed word is not
      looked up in an unsigned type. */
  function EntryOf(sp: Option<Specifics>, v: int): Option<nat> {
    if sp.Some? && (v <= INT64_MAX || !IsUnsigned(sp)) then FindValue(sp.value.value2enum, v, 0) else None
  }

  /** The text of an entry: a tag, or the number and the name. */
  function EntryText(e: Entry, xer: bool): string {
    if xer then Tag(e.name) else DecimalText(e.natValue) + " (" + e.name + ")"
  }

  /** The text of a buffer, or nothing where only enumerated values may be printed. */
  function Printed(sp: Option<Specifics>, s: seq<u8>, xer: bool): Option<string> {
    var v := Number(IsUnsigned(sp), s);
    if Fits(IsUnsigned(sp), v) then
      var el := EntryOf(sp, v);
      if el.Some? then Some(EntryText(sp.value.value2enum[el.value], xer))
      else if xer && IsStrict(sp) then None
      else Some(DecimalText(v))
    else if xer && IsStrict(sp) then None
    else Some(HexText(s))
  }

  function Joined(chunks: seq<string>): string {
    if chunks == [] then [] else Joined(chunks[..|chunks| - 1]) + chunks[|chunks| - 1]
  }

  /** `INTEGER__dump`, for XER or for people.  `chunks` are the calls of the consumer, in order;
      `wrote` is the count returned, or -1. */
  method Dump(sp: Option<Specifics>, st: INTEGER, xer: bool) returns (chunks: seq<string>, wrote: int)
    requires st.Valid() && st.buf != null
    requires sp.Some? ==> SortedByValue(sp.value)
    ensures match Printed(sp, st.Contents(), xer)
      case None => wrote == -1 && chunks == []
      case Some(text) => Joined(chunks) == text && wrote == |text|
  {
    hide Signed, Unsigned, Pow2, HexText, DecimalText, Tag;
    var ret: Conversion;
    if IsUnsigned(sp) {
      ret := st.ToUmax();
    } else {
      ret := st.ToImax();
    }
    UnsignedIsNatural(st.Contents());
    if ret.Value? {
      var value := ret.value;
      var el: Option<nat> := None;
      if sp.Some? && (value <= INT64_MAX || !IsUnsigned(sp)) {
        el := MapValue2Enum(sp.value, value);
      }
      if el.Some? {
        var name := sp.value.value2enum[el.value].name;
        chunks := [if xer then Tag(name) else DecimalText(value) + " (" + name + ")"];
      } else if xer && IsStrict(sp) {
        return [], -1;
      } else {
        chunks := [DecimalText(value)];
      }
      OneChunk(chunks[0]);
      wrote := |chunks[0]|;
    } else if xer && IsStrict(sp) {
      return [], -1;
    } else {
      chunks, wrote := DumpHex(st);
    }
  }

  lemma OneChunk(t: string)
    ensures Joined([t]) == t
  {
    assert Joined([]) == [];
    assert [t][..0] == [];
  }

  /** The long form, through a scratch buffer of 32 octets. */
  method DumpHex(st: INTEGER) returns (chunks: seq<string>, wrote: int)
    requires st.Valid() && st.buf != null
    ensures Joined(chunks) == HexText(st.Contents()) && wrote == |Joined(chunks)|
  {
    hide HexPair, HexText, HexColons, Joined;
    ghost var s := st.Contents();
    NoChunks();
    NoColons(s);
    var scratch := new char[32];
    chunks := [];
    wrote := 0;
    var p := 0;
    var i := 0;
    while i < st.size
      invariant 0 <= i <= st.size && p % 3 == 0 && p <= 30 && (i > 0 ==> p > 0)
      invariant wrote == |Joined(chunks)| && Joined(chunks) + scratch[..p] == HexColons(s[..i])
    {
      if p >= 32 - 4 {
        chunks := Flushed(chunks, scratch[..p]);
        wrote := wrote + p;
        p := 0;
        assert scratch[..0] == [];
      }
      var b := st.buf[i];
      ghost var before := scratch[..p];
      p := WriteOctet(scratch, p, b);
      NextColons(s, i);
      assert Joined(chunks) + (before + HexPair(b) + [':']) == (Joined(chunks) + before) + HexPair(b) + [':'];
      i := i + 1;
    }
    assert s[..i] == s;
    ghost var all := Joined(chunks) + scratch[..p];
    if p != 0 {
      p := p - 1;
    }
    HexTextIs(s);
    assert Joined(chunks) + scratch[..p] == if all == [] then [] else all[..|all| - 1];
    chunks := Flushed(chunks, scratch[..p]);
    wrote := wrote + p;
  }

  method WriteOctet(scratch: array<char>, at: nat, b: u8) returns (p: nat)
    requires at + 3 <= scratch.Length
    modifies scratch
    ensures p == at + 3 && scratch[..p] == old(scratch[..at]) + HexPair(b) + [':']
  {
    p := at;
    scratch[p] := HexChar(b / 16);
    p := p + 1;
    scratch[p] := HexChar(b % 16);
    p := p + 1;
    scratch[p] := ':';
    p := p + 1;
  }

  function Flushed(chunks: seq<string>, t: string): (r: seq<string>)
    ensures Joined(r) == Joined(chunks) + t
  {
    assert (chunks + [t])[..|chunks|] == chunks;
    chunks + [t]
  }

  lemma NoChunks()
    ensures Joined([]) == []
  {}

  lemma NoColons(s: seq<u8>)
    ensures HexColons(s[..0]) == []
  {}

  lemma NextColons(s: seq<u8>, i: nat)
    requires i < |s|
    ensures HexColons(s[..i + 1]) == HexColons(s[..i]) + HexPair(s[i]) + [':']
  {
    assert s[..i + 1][..i] == s[..i] && s[..i + 1][i] == s[i];
  }

  lemma HexTextIs(s: seq<u8>)
    ensures HexText(s) == var t := HexColons(s); if t == [] then [] else t[..|t| - 1]
  {}

  // ----- the grammar of the text

  predicate IsSpace(c: char) {
    var b := c as int;
    b == 0x09 || b == 0x0a || b == 0x0d || b == 0x20
  }

  /** The first position from `i` that is not a space. */
  function SkipSpace(s: string, i: nat): (j: nat)
    requires i <= |s|
    ensures i <= j <= |s| && (j < |s| ==> !IsSpace(s[j]))
    decreases |s| - i
  {
    if i == |s| || !IsSpace(s[i]) then i else SkipSpace(s, i + 1)
  }

  predicate OnlySpace(s: string, i: nat)
    requires i <= |s|
  {
    SkipSpace(s, i) == |s|
  }

  /** Octets in hexadecimal from `i` on, joined by single colons, then only space. */
  function HexPairs(s: string, i: nat, acc: seq<u8>): Option<seq<u8>>
    requires i <= |s|
    decreases |s| - i
  {
    if i + 2 <= |s| && IsHex(s[i]) && IsHex(s[i + 1])
    then AfterPair(s, i + 2, acc + [HexValue(s[i]) * 16 + HexValue(s[i + 1])])
    else None
  }

  function AfterPair(s: string, i: nat, acc: seq<u8>): Option<seq<u8>>
    requires i <= |s|
    decreases |s| - i
  {
    if i < |s| && s[i] == ':' then HexPairs(s, i + 1, acc)
    else if OnlySpace(s, i) then Some(acc)
    else None
  }

  datatype Meaning = Hex(bytes: seq<u8>) | Num(value: int) | Broken | Nothing | TooLarge | Overflow

  function HexMeaning(s: string): Meaning {
    match HexPairs(s, SkipSpace(s, 0), [])
    case Some(bytes) => Hex(bytes)
    case None => Broken
  }

  /** A decimal number that starts, sign included, at `start` and ends at `end`. */
  function DecimalMeaning(s: string, start: nat, end: nat): Meaning
    requires start <= end <= |s|
  {
    var r := Decimal.ReadSigned(s, start, end);
    match r.code
    case Ok => if r.value.Some? then Num(r.value.value) else Broken
    case ErrorRange => TooLarge
    case Undefined => Overflow
    case _ => Broken
  }

  /** A sign, if any, then digits from `i` on: decimal, unless a colon or a letter after the
      digits shows that the text as a whole is hexadecimal. */
  function DigitsMeaning(s: string, start: nat, i: nat): Meaning
    requires start <= i <= |s|
  {
    if i == |s| || !Decimal.IsDigit(s[i]) then Broken
    else
      var e := Decimal.RunEnd(s, i, |s|);
      if OnlySpace(s, e) then DecimalMeaning(s, start, e)
      else if s[e] == ':' || IsHexLetter(s[e]) then HexMeaning(s)
      else Broken
  }

  /** What a chunk of text means for a type. */
  function MeaningOf(sp: Option<Specifics>, s: string): Meaning {
    var i := SkipSpace(s, 0);
    if i == |s| then Nothing
    else if s[i] == '-' || s[i] == '+' then DigitsMeaning(s, i, i + 1)
    else if Decimal.IsDigit(s[i]) then DigitsMeaning(s, i, i)
    else if IsHexLetter(s[i]) then HexMeaning(s)
    else if s[i] == '<' && sp.Some? then
      // the tag is looked for at the start of the chunk, not at the '<'
      var el := LookupTag(sp.value, s);
      if el.Some? then Num(sp.value.value2enum[el.value].natValue) else Broken
    else Broken
  }

  // ----- the reader

  datatype Pbd = BodyConsumed | BrokenEncoding | NotBodyIgnore | DecoderLimit | UndefinedBehaviour

  datatype Phase =
    | LeadSpace | SkipSpHex | WaitDigits | Digits | DigitsTrailSpace
    | HexDigit1 | HexDigit2 | HexDigitsTrailSpace | HexColon | EndEnum | Unexpected

  /** The reader is still on its first pass over the chunk. */
  predicate FirstPass(ph: Phase) {
    ph.LeadSpace? || ph.WaitDigits? || ph.Digits? || ph.DigitsTrailSpace?
  }

  /** What is known at position `lp` in each phase: `bytes` is the buffer so far, `hex` the
      high digit read, `start` and `end` the decimal text. */
  ghost predicate Progress(sp: Option<Specifics>, s: string, ph: Phase, lp: nat, bytes: seq<u8>,
      hex: nat, start: nat, end: nat) {
    var i0 := SkipSpace(s, 0);
    && lp <= |s|
    && match ph
       case LeadSpace => bytes == [] && SkipSpace(s, lp) == i0
       case WaitDigits => bytes == [] && start == i0 && lp == i0 + 1 && MeaningOf(sp, s) == DigitsMeaning(s, start, lp)
       case Digits =>
         && bytes == [] && start == i0 < lp && MeaningOf(sp, s) == DigitsRead(s, start, lp)
       case DigitsTrailSpace =>
         && start <= end < lp && MeaningOf(sp, s) == if OnlySpace(s, lp) then DecimalMeaning(s, start, end) else Broken
       case SkipSpHex => bytes == [] && SkipSpace(s, lp) == i0 && MeaningOf(sp, s) == HexMeaning(s)
       case HexDigit1 => 3 * |bytes| <= lp && MeaningOf(sp, s) == Meant(HexPairs(s, lp, bytes))
       case HexDigit2 =>
         && lp >= 1 && 3 * |bytes| <= lp - 1 && IsHex(s[lp - 1]) && hex == HexValue(s[lp - 1]) * 16
         && MeaningOf(sp, s) == Meant(HexPairs(s, lp - 1, bytes))
       case HexColon => 3 * |bytes| - 1 <= lp && bytes != [] && MeaningOf(sp, s) == Meant(AfterPair(s, lp, bytes))
       case HexDigitsTrailSpace =>
         && 3 * |bytes| - 1 <= lp && bytes != []
         && MeaningOf(sp, s) == if OnlySpace(s, lp) then Hex(bytes) else Broken
       case EndEnum => lp == |s|
       case Unexpected => true
  }

  /** The rest of a run of digits, at least one of which has been read before `lp`. */
  function DigitsRead(s: string, start: nat, lp: nat): Meaning
    requires start <= lp <= |s|
  {
    var e := Decimal.RunEnd(s, lp, |s|);
    if OnlySpace(s, e) then DecimalMeaning(s, start, e)
    else if s[e] == ':' || IsHexLetter(s[e]) then HexMeaning(s)
    else Broken
  }

  function Meant(r: Option<seq<u8>>): Meaning {
    match r
    case Some(bytes) => Hex(bytes)
    case None => Broken
  }

  /** What one character does: move on, jump back to the start, look the tag up, or give up. */
  datatype Move = Next(ph: Phase, writes: bool) | Rescan | EnumTag | Reject

  function MoveOf(ph: Phase, c: char): Move {
    var lv := c as int;
    if lv == 0x09 || lv == 0x0a || lv == 0x0d || lv == 0x20 then
      match ph
      case LeadSpace | DigitsTrailSpace | HexDigitsTrailSpace | SkipSpHex => Next(ph, false)
      case Digits => Next(DigitsTrailSpace, false)
      case HexColon => Next(HexDigitsTrailSpace, false)
      case _ => Reject
    else if lv == 0x2d || lv == 0x2b then
      if ph == LeadSpace then Next(WaitDigits, false) else Reject
    else if 0x30 <= lv <= 0x39 then
      match ph
      case Digits => Next(Digits, false)
      case SkipSpHex | HexDigit1 => Next(HexDigit2, false)
      case HexDigit2 => Next(HexColon, true)
      case LeadSpace | WaitDigits => Next(Digits, false)
      case _ => Reject
    else if lv == 0x3c then
      if ph == LeadSpace then EnumTag else Reject
    else if lv == 0x3a then
      if ph == HexColon then Next(HexDigit1, false)
      else if ph == Digits then Rescan
      else Reject
    else if 0x41 <= lv <= 0x46 || 0x61 <= lv <= 0x66 then
      match ph
      case SkipSpHex | LeadSpace | HexDigit1 => Next(HexDigit2, false)
      case HexDigit2 => Next(HexColon, true)
      case Digits => Rescan
      case _ => Reject
    else Reject
  }

  /** Where the first pass of a run of digits begins, `start` is set. */
  function StartAfter(ph: Phase, move: Move, lp: nat, start: nat): nat {
    if ph.LeadSpace? && move.Next? && (move.ph.WaitDigits? || move.ph.Digits?) then lp else start
  }

  function EndAfter(ph: Phase, move: Move, lp: nat, end: nat): nat {
    if ph.Digits? && move.Next? && move.ph.DigitsTrailSpace? then lp else end
  }

  /** The bytes after a move, the octet completed by a second digit included. */
  ghost function BytesAfter(move: Move, c: char, bytes: seq<u8>, hex: nat): seq<u8> {
    if move.Next? && move.writes && IsHex(c) && hex <= 240 then bytes + [hex + HexValue(c)] else bytes
  }

  function HexAfter(move: Move, c: char, hex: nat): nat {
    if move.Next? && move.ph.HexDigit2? && IsHex(c) then HexValue(c) * 16 else hex
  }

  lemma MoveKeepsProgress(sp: Option<Specifics>, s: string, ph: Phase, lp: nat, bytes: seq<u8>,
      hex: nat, start: nat, end: nat)
    requires lp < |s| && Progress(sp, s, ph, lp, bytes, hex, start, end)
    requires MoveOf(ph, s[lp]).Next?
    ensures var move := MoveOf(ph, s[lp]);
      && (move.writes <==> ph.HexDigit2?) && (move.writes ==> IsHex(s[lp]) && hex <= 240)
      && Progress(sp, s, move.ph, lp + 1, BytesAfter(move, s[lp], bytes, hex), HexAfter(move, s[lp], hex),
                  StartAfter(ph, move, lp, start), EndAfter(ph, move, lp, end))
  {
    hide DecimalMeaning, HexMeaning, LookupTag;
    match ph
    case LeadSpace => LeadSpaceMoves(sp, s, lp, bytes, hex, start, end);
    case WaitDigits =>
    case Digits => DigitsMove(sp, s, lp, bytes, hex, start, end);
    case DigitsTrailSpace =>
    case SkipSpHex => SkipSpHexMoves(sp, s, lp, bytes, hex, start, end);
    case HexDigit1 =>
    case HexDigit2 =>
    case HexColon =>
    case HexDigitsTrailSpace =>
    case _ =>
  }

  lemma LeadSpaceMoves(sp: Option<Specifics>, s: string, lp: nat, bytes: seq<u8>,
      hex: nat, start: nat, end: nat)
    requires lp < |s| && Progress(sp, s, LeadSpace, lp, bytes, hex, start, end)
    requires MoveOf(LeadSpace, s[lp]).Next?
    ensures var move := MoveOf(LeadSpace, s[lp]);
      && Progress(sp, s, move.ph, lp + 1, bytes, HexAfter(move, s[lp], hex),
                  StartAfter(LeadSpace, move, lp, start), end)
  {
    hide DecimalMeaning, LookupTag;
  }

  lemma DigitsMove(sp: Option<Specifics>, s: string, lp: nat, bytes: seq<u8>,
      hex: nat, start: nat, end: nat)
    requires lp < |s| && Progress(sp, s, Digits, lp, bytes, hex, start, end)
    requires MoveOf(Digits, s[lp]).Next?
    ensures var move := MoveOf(Digits, s[lp]);
      && Progress(sp, s, move.ph, lp + 1, bytes, hex, start, EndAfter(Digits, move, lp, end))
  {
    hide DecimalMeaning, HexMeaning, LookupTag;
  }

  lemma SkipSpHexMoves(sp: Option<Specifics>, s: string, lp: nat, bytes: seq<u8>,
      hex: nat, start: nat, end: nat)
    requires lp < |s| && Progress(sp, s, SkipSpHex, lp, bytes, hex, start, end)
    requires MoveOf(SkipSpHex, s[lp]).Next?
    ensures var move := MoveOf(SkipSpHex, s[lp]);
      && Progress(sp, s, move.ph, lp + 1, bytes, HexAfter(move, s[lp], hex), start, end)
  {
    hide MeaningOf;
  }

  /** A jump back to the start happens only on the first pass, before anything is written,
      and only when the text as a whole is hexadecimal. */
  lemma RescanIsHex(sp: Option<Specifics>, s: string, ph: Phase, lp: nat, bytes: seq<u8>,
      hex: nat, start: nat, end: nat)
    requires lp < |s| && Progress(sp, s, ph, lp, bytes, hex, start, end)
    requires MoveOf(ph, s[lp]).Rescan?
    ensures FirstPass(ph) && bytes == [] && Progress(sp, s, SkipSpHex, 0, bytes, hex, start, end)
  {
    hide DecimalMeaning, HexMeaning, LookupTag;
  }

  lemma RejectIsBroken(sp: Option<Specifics>, s: string, ph: Phase, lp: nat, bytes: seq<u8>,
      hex: nat, start: nat, end: nat)
    requires lp < |s| && Progress(sp, s, ph, lp, bytes, hex, start, end) && !ph.EndEnum? && !ph.Unexpected?
    requires MoveOf(ph, s[lp]).Reject?
    ensures MeaningOf(sp, s) == Broken
  {
    hide DecimalMeaning, LookupTag;
  }

  /** What is known when the loop has run to its end. */
  ghost predicate Ended(sp: Option<Specifics>, s: string, ph: Phase, bytes: seq<u8>, start: nat, end: nat, value: int) {
    match ph
    case LeadSpace => MeaningOf(sp, s) == Nothing
    case Digits => start <= |s| && MeaningOf(sp, s) == DecimalMeaning(s, start, |s|)
    case DigitsTrailSpace => start <= end <= |s| && MeaningOf(sp, s) == DecimalMeaning(s, start, end)
    case HexColon | HexDigitsTrailSpace => MeaningOf(sp, s) == Hex(bytes) && |bytes| <= |s| / 3 + 1
    case WaitDigits | SkipSpHex | HexDigit1 | HexDigit2 => MeaningOf(sp, s) == Broken
    case EndEnum => FitsI64(value) && MeaningOf(sp, s) == Num(value)
    case Unexpected => false
  }

  lemma EndMeaning(sp: Option<Specifics>, s: string, ph: Phase, bytes: seq<u8>,
      hex: nat, start: nat, end: nat, value: int)
    requires Progress(sp, s, ph, |s|, bytes, hex, start, end) && !ph.Unexpected?
    requires ph.EndEnum? ==> FitsI64(value) && MeaningOf(sp, s) == Num(value)
    ensures Ended(sp, s, ph, bytes, start, end, value)
  {
    hide DecimalMeaning, LookupTag;
  }

  /** What the caller finds in the buffer for each meaning. */
  ghost predicate Decoded(m: Meaning, r: Pbd, contents: seq<u8>) {
    match m
    case Hex(bytes) => r == BodyConsumed && contents == bytes
    case Num(v) => r == BodyConsumed && Signed(contents) == v && Minimal(contents)
    case Broken => r == BrokenEncoding
    case Nothing => r == NotBodyIgnore
    case TooLarge => r == DecoderLimit
    case Overflow => r == UndefinedBehaviour
  }

  /** `INTEGER__xer_body_decode`. */
  method XerBodyDecode(sp: Option<Specifics>, st: INTEGER, chunk: string) returns (r: Pbd)
    requires st.Valid() && (sp.Some? ==> WellFormed(sp.value))
    modifies st
    ensures st.Valid() && st.buf != null
    ensures Decoded(MeaningOf(sp, chunk), r, st.Contents())
  {
    hide MeaningOf, Ended, Decoded, WellFormed;
    st.Preallocate(|chunk| / 3 + 1);
    assert st.Contents() == [];
    var ok, ph, decStart, decEnd, decValue := ScanBody(sp, st, chunk);
    if !ok {
      BrokenIs(MeaningOf(sp, chunk), st.Contents());
      return BrokenEncoding;
    }
    r := FinishBody(sp, st, chunk, ph, decStart, decEnd, decValue);
  }

  lemma BrokenIs(m: Meaning, contents: seq<u8>)
    requires m == Broken
    ensures Decoded(m, BrokenEncoding, contents)
  {}

  /** The loop over the characters, with its jump back to the start. */
  method ScanBody(sp: Option<Specifics>, st: INTEGER, chunk: string)
    returns (ok: bool, ph: Phase, decStart: nat, decEnd: nat, decValue: int)
    requires st.Valid() && st.buf != null && st.buf.Length == |chunk| / 3 + 2 && st.Contents() == []
    requires sp.Some? ==> WellFormed(sp.value)
    modifies st`size, st.buf
    ensures st.Valid() && st.buf == old(st.buf)
    ensures if ok then Ended(sp, chunk, ph, st.Contents(), decStart, decEnd, decValue)
            else MeaningOf(sp, chunk) == Broken
  {
    hide MeaningOf, DecimalMeaning, MoveOf, Progress, Ended, WellFormed;
    ph := LeadSpace;
    var lp: nat := 0;
    var hexValue: nat := 0;
    ok, decStart, decEnd, decValue := true, 0, 0, 0;
    StartProgress(sp, chunk);
    while lp < |chunk|
      invariant lp <= |chunk| && st.Valid() && st.buf == old(st.buf)
      invariant !ph.Unexpected? && Progress(sp, chunk, ph, lp, st.Contents(), hexValue, decStart, decEnd)
      invariant ph.EndEnum? ==> lp == |chunk| && FitsI64(decValue) && MeaningOf(sp, chunk) == Num(decValue)
      decreases if FirstPass(ph) then 1 else 0, |chunk| - lp
    {
      var c := chunk[lp];
      var move := MoveOf(ph, c);
      ghost var before := st.Contents();
      match move {
        case Next(next, writes) =>
          MoveKeepsProgress(sp, chunk, ph, lp, before, hexValue, decStart, decEnd);
          MoveLeavesPhase(ph, c);
          if writes {
            RoomForOctet(sp, chunk, ph, lp, before, hexValue, decStart, decEnd);
            st.Append(hexValue + HexValue(c));
          }
          decStart := StartAfter(ph, move, lp, decStart);
          decEnd := EndAfter(ph, move, lp, decEnd);
          hexValue := HexAfter(move, c, hexValue);
          ph := next;
          lp := lp + 1;
        case Rescan =>
          // the colon or letter shows that the digits so far were hexadecimal
          RescanIsHex(sp, chunk, ph, lp, before, hexValue, decStart, decEnd);
          ph := SkipSpHex;
          lp := 0;
        case EnumTag =>
          EnumTagMeaning(sp, chunk, ph, lp, before, hexValue, decStart, decEnd);
          var el: Option<nat> := None;
          if sp.Some? {
            el := MapEnum2Value(sp.value, chunk);
          }
          if el.None? {
            ok := false;
            return;
          }
          decValue := sp.value.value2enum[el.value].natValue;
          ph := EndEnum;
          lp := |chunk|;
        case Reject =>
          RejectIsBroken(sp, chunk, ph, lp, before, hexValue, decStart, decEnd);
          ok := false;
          return;
      }
    }
    EndMeaning(sp, chunk, ph, st.Contents(), hexValue, decStart, decEnd, decValue);
  }

  /** What follows the loop, by its last state. */
  method FinishBody(sp: Option<Specifics>, st: INTEGER, chunk: string, ph: Phase, decStart: nat, end: nat, value: int)
    returns (r: Pbd)
    requires st.Valid() && st.buf != null && st.buf.Length == |chunk| / 3 + 2
    requires Ended(sp, chunk, ph, st.Contents(), decStart, end, value)
    modifies st, st.buf
    ensures st.Valid() && st.buf != null
    ensures Decoded(MeaningOf(sp, chunk), r, st.Contents())
  {
    hide MeaningOf, DecimalMeaning, Signed;
    var decValue := value;
    var decEnd := if ph.Digits? then |chunk| else end;
    match ph {
      case EndEnum =>
      case Digits | DigitsTrailSpace =>
        var reading := Decimal.Strtoimax(chunk, decStart, decEnd);
        DecimalMeaningIs(chunk, decStart, decEnd);
        match reading.code {
          case Ok =>
            decValue := reading.value.value;
          case ErrorRange =>
            return DecoderLimit;
          case Undefined =>
            return UndefinedBehaviour;
          case _ =>
            return BrokenEncoding;
        }
      case HexColon | HexDigitsTrailSpace =>
        st.Terminate();
        return BodyConsumed;
      case LeadSpace =>
        return NotBodyIgnore;
      case _ =>
        return BrokenEncoding;
    }
    st.FromImax(decValue);
    r := BodyConsumed;
  }

  lemma StartProgress(sp: Option<Specifics>, s: string)
    ensures Progress(sp, s, LeadSpace, 0, [], 0, 0, 0)
  {}

  /** Every octet is written inside the buffer, and leaves room for the terminator. */
  lemma RoomForOctet(sp: Option<Specifics>, s: string, ph: Phase, lp: nat, bytes: seq<u8>,
      hex: nat, start: nat, end: nat)
    requires lp < |s| && Progress(sp, s, ph, lp, bytes, hex, start, end)
    requires MoveOf(ph, s[lp]).Next? && MoveOf(ph, s[lp]).writes
    ensures |bytes| + 1 < |s| / 3 + 2
  {}

  lemma MoveLeavesPhase(ph: Phase, c: char)
    requires MoveOf(ph, c).Next?
    ensures !MoveOf(ph, c).ph.EndEnum? && !MoveOf(ph, c).ph.Unexpected?
    ensures FirstPass(MoveOf(ph, c).ph) ==> FirstPass(ph)
  {}

  lemma EnumTagMeaning(sp: Option<Specifics>, s: string, ph: Phase, lp: nat, bytes: seq<u8>,
      hex: nat, start: nat, end: nat)
    requires lp < |s| && Progress(sp, s, ph, lp, bytes, hex, start, end)
    requires MoveOf(ph, s[lp]).EnumTag?
    ensures FirstPass(ph)
    ensures MeaningOf(sp, s) ==
      if sp.Some? && LookupTag(sp.value, s).Some?
      then Num(sp.value.value2enum[LookupTag(sp.value, s).value].natValue) else Broken
    ensures Progress(sp, s, EndEnum, |s|, bytes, hex, start, end)
  {
    hide LookupTag;
  }

  lemma DecimalMeaningIs(s: string, start: nat, end: nat)
    requires start <= end <= |s|
    ensures var r := Decimal.ReadSigned(s, start, end);
      DecimalMeaning(s, start, end) == match r.code
        case Ok => (if r.value.Some? then Num(r.value.value) else Broken)
        case ErrorRange => TooLarge
        case Undefined => Overflow
        case _ => Broken
    ensures var r := Decimal.ReadSigned(s, start, end);
      r.code.Ok? ==> r.value.Some? && FitsI64(r.value.value)
  {
    Decimal.ReadingFits(s, start, end);
    Decimal.OkHasValue(s, start, end);
  }

  // ----- the two undo each other

  lemma {:induction false} HexColonsAt(s: seq<u8>, k: nat)
    requires k < |s|
    ensures HexColons(s)[3 * k..3 * k + 3] == HexPair(s[k]) + [':']
  {
    var n := |s| - 1;
    if k < n {
      HexColonsAt(s[..n], k);
      assert HexColons(s)[3 * k..3 * k + 3] == HexColons(s[..n])[3 * k..3 * k + 3];
    }
  }

  lemma HexTextAt(s: seq<u8>, k: nat)
    requires k < |s|
    ensures |HexText(s)| == 3 * |s| - 1
    ensures HexText(s)[3 * k] == HexChar(s[k] / 16) && HexText(s)[3 * k + 1] == HexChar(s[k] % 16)
    ensures k < |s| - 1 ==> HexText(s)[3 * k + 2] == ':'
  {
    hide HexChar;
    var t := HexColons(s);
    HexColonsAt(s, k);
    var u := t[3 * k..3 * k + 3];
    assert u[0] == t[3 * k] && u[1] == t[3 * k + 1] && u[2] == t[3 * k + 2];
  }

  lemma {:induction false} PairsOfHexText(s: seq<u8>, k: nat)
    requires k < |s|
    ensures 3 * k <= |HexText(s)| && HexPairs(HexText(s), 3 * k, s[..k]) == Some(s)
    decreases |s| - k
  {
    hide HexText, HexChar, IsHex, HexValue;
    HexTextAt(s, k);
    assert s[..k] + [s[k]] == s[..k + 1];
    if k + 1 < |s| {
      PairsOfHexText(s, k + 1);
    } else {
      assert s[..k + 1] == s;
    }
  }

  /** The hexadecimal text of at least two octets is read back as these octets. */
  lemma HexRoundTrip(sp: Option<Specifics>, s: seq<u8>)
    requires |s| >= 2
    ensures MeaningOf(sp, HexText(s)) == Hex(s)
  {
    hide HexText, HexChar, HexPairs;
    var t := HexText(s);
    HexTextAt(s, 0);
    PairsOfHexText(s, 0);
    assert s[..0] == [];
    assert t[2] == ':';
    assert SkipSpace(t, 0) == 0;
    assert HexMeaning(t) == Hex(s);
    if Decimal.IsDigit(t[0]) {
      assert Decimal.RunEnd(t, 0, |t|) == Decimal.RunEnd(t, 1, |t|);
      if Decimal.IsDigit(t[1]) {
        assert Decimal.RunEnd(t, 1, |t|) == Decimal.RunEnd(t, 2, |t|) == 2;
      } else {
        assert Decimal.RunEnd(t, 1, |t|) == 1;
      }
    }
  }

  lemma NonNegativeRoundTrip(sp: Option<Specifics>, v: nat)
    ensures MeaningOf(sp, Decimal.NaturalText(v)) == if v <= INT64_MAX then Num(v) else TooLarge
  {
    hide Decimal.NaturalText;
    var t := Decimal.NaturalText(v);
    Decimal.NaturalTextValue(v);
    Decimal.RunIsWhole(t, 0, |t|);
    Decimal.SignedIsExact(t, 0, |t|);
    assert Decimal.IsDigit(t[0]);
  }

  lemma NegativeRoundTrip(sp: Option<Specifics>, v: nat)
    requires v <= INT64_MAX + 1
    ensures MeaningOf(sp, "-" + Decimal.NaturalText(v)) == Num(-(v as int))
  {
    hide Decimal.NaturalText, Decimal.ReadSigned, Decimal.DecimalValue;
    var t := "-" + Decimal.NaturalText(v);
    Decimal.TextAfterMinus(v);
    Decimal.RunIsWhole(t, 1, |t|);
    NeverNearMinimum(t, v);
    Decimal.SignedIsExact(t, 1, |t|);
  }

  lemma NeverNearMinimum(t: string, v: nat)
    requires |t| >= 2 && Decimal.Digits(t, 1, |t|) && v <= INT64_MAX + 1
    requires Decimal.DecimalValue(t, 1, |t| - 1) == v / 10
    ensures !Decimal.ContinuesMinimum(t, 1, 1, |t|)
  {
    hide Decimal.DecimalValue;
    forall k | 1 <= k < |t|
      ensures !Decimal.NearMinimum(Decimal.DecimalValue(t, 1, k))
    {
      Decimal.ValueGrows(t, 1, k, |t| - 1);
    }
  }

  /** Decimal text is read back as its number, if that is a signed 64-bit one. */
  lemma DecimalRoundTrip(sp: Option<Specifics>, v: int)
    requires v >= INT64_MIN
    ensures MeaningOf(sp, DecimalText(v)) == if v <= INT64_MAX then Num(v) else TooLarge
  {
    if v < 0 {
      NegativeRoundTrip(sp, -v);
    } else {
      NonNegativeRoundTrip(sp, v);
    }
  }

  lemma TagRoundTrip(sp: Specifics, i: nat)
    requires WellFormed(sp) && i < |sp.value2enum|
    ensures MeaningOf(Some(sp), Tag(sp.value2enum[i].name)) == Num(sp.value2enum[i].natValue)
  {
    hide WellFormed, LookupTag;
    TagOfEntryFindsEntry(sp, i);
    assert Tag(sp.value2enum[i].name)[0] == '<';
  }

  lemma EightOctetsFit(sp: Option<Specifics>, s: seq<u8>)
    ensures |s| <= 8 ==> Fits(IsUnsigned(sp), Number(IsUnsigned(sp), s))
  {
    if s != [] && |s| <= 8 {
      SignedRange(s);
      BytesValueBound(s, 0, |s|);
      Pow63();
      WidthFacts();
      Pow2Monotone(8 * |s| - 1, 63);
      Pow2Monotone(8 * |s|, 64);
    }
  }

  /** Whatever the printer writes for a buffer, the reader takes back: the same octets where
      they exceed 64 bits, and otherwise the same number, with one exception: an unsigned
      number from 2^63 up that is not enumerated is refused as too large. */
  lemma XerRoundTrip(sp: Option<Specifics>, s: seq<u8>)
    requires sp.Some? ==> WellFormed(sp.value)
    requires Printed(sp, s, true).Some?
    ensures var v := Number(IsUnsigned(sp), s);
      MeaningOf(sp, Printed(sp, s, true).value) ==
        if !Fits(IsUnsigned(sp), v) then Hex(s)
        else if v > INT64_MAX then TooLarge
        else Num(v)
  {
    hide MeaningOf, HexText, DecimalText, WellFormed, Tag, Signed, Unsigned;
    var v := Number(IsUnsigned(sp), s);
    if !Fits(IsUnsigned(sp), v) {
      EightOctetsFit(sp, s);
      HexRoundTrip(sp, s);
    } else {
      var el := EntryOf(sp, v);
      if el.Some? {
        TagRoundTrip(sp.value, el.value);
      } else {
        DecimalRoundTrip(sp, v);
      }
    }
  }

  /** 2^63 in an unsigned type is printed and not read back. */
  lemma LargeUnsignedIsRefused(s: seq<u8>)
    requires |s| == 8 && s[0] == 0x80 && forall i :: 1 <= i < 8 ==> s[i] == 0
    ensures var sp := Some(Specifics([], [], false, true));
      && Printed(sp, s, true) == Some(DecimalText(0x8000_0000_0000_0000))
      && MeaningOf(sp, DecimalText(0x8000_0000_0000_0000)) == TooLarge
  {
    hide MeaningOf, DecimalText;
    UnsignedOfEight(s);
    DecimalRoundTrip(Some(Specifics([], [], false, true)), 0x8000_0000_0000_0000);
  }

  // ----- what the reader takes, on the characters themselves

  /** A hexadecimal digit, in either case. */
  predicate StandsFor(c: char, d: nat) {
    || (d < 10 && c as int == '0' as int + d)
    || (10 <= d < 16 && (c as int == 'A' as int + d - 10 || c as int == 'a' as int + d - 10))
  }

  predicate Blank(t: string) {
    forall i :: 0 <= i < |t| ==> t[i] == ' ' || t[i] == '\t' || t[i] == '\n' || t[i] == '\r'
  }

  /** From `i` on, two digits for every octet, joined by colons. */
  predicate HexBody(t: string, i: nat, s: seq<u8>) {
    && s != [] && i + 3 * |s| - 1 <= |t|
    && (forall k :: 0 <= k < |s| ==> StandsFor(t[i + 3 * k], s[k] / 16) && StandsFor(t[i + 3 * k + 1], s[k] % 16))
    && (forall k :: 0 <= k < |s| - 1 ==> t[i + 3 * k + 2] == ':')
  }

  lemma DigitsStand(c: char, d: nat)
    requires d < 16
    ensures StandsFor(c, d) <==> IsHex(c) && HexValue(c) == d
    ensures StandsFor(c, d) ==> !IsSpace(c)
  {}

  lemma {:induction false} BlankIsSpace(t: string, i: nat)
    requires i <= |t|
    ensures OnlySpace(t, i) <==> Blank(t[i..])
    decreases |t| - i
  {
    if i < |t| {
      BlankIsSpace(t, i + 1);
      assert t[i..] == [t[i]] + t[i + 1..];
      assert Blank(t[i..]) <==> IsSpace(t[i]) && Blank(t[i + 1..]) by {
        BlankCons(t[i], t[i + 1..]);
      }
    }
  }

  lemma BlankCons(c: char, t: string)
    ensures Blank([c] + t) <==> IsSpace(c) && Blank(t)
  {
    if Blank([c] + t) {
      assert ([c] + t)[0] == c;
      forall i | 0 <= i < |t| ensures IsSpace(t[i]) {
        assert ([c] + t)[i + 1] == t[i];
      }
    }
  }

  /** The end of the space at the start is where something else begins, or the end. */
  lemma {:induction false} SkipSpaceIs(t: string, i: nat, j: nat)
    requires i <= j <= |t| && (j < |t| ==> !IsSpace(t[j]))
    ensures SkipSpace(t, i) == j <==> Blank(t[i..j])
    decreases j - i
  {
    if i < j {
      SkipSpaceIs(t, i + 1, j);
      assert t[i..j] == [t[i]] + t[i + 1..j];
      BlankCons(t[i], t[i + 1..j]);
    }
  }

  lemma OneOctet(t: string, i: nat, b: u8)
    requires i + 2 <= |t|
    ensures HexBody(t, i, [b]) <==> StandsFor(t[i], b / 16) && StandsFor(t[i + 1], b % 16)
  {
    hide StandsFor;
    if HexBody(t, i, [b]) {
      assert StandsFor(t[i + 3 * 0], [b][0] / 16) && StandsFor(t[i + 3 * 0 + 1], [b][0] % 16);
    }
  }

  lemma MoreOctets(t: string, i: nat, b: u8, s: seq<u8>)
    requires i + 3 <= |t| && s != []
    ensures HexBody(t, i, [b] + s) <==> HexBody(t, i, [b]) && t[i + 2] == ':' && HexBody(t, i + 3, s)
  {
    hide StandsFor;
    var u := [b] + s;
    OneOctet(t, i, b);
    if HexBody(t, i, u) {
      assert StandsFor(t[i + 3 * 0], u[0] / 16) && StandsFor(t[i + 3 * 0 + 1], u[0] % 16) && t[i + 3 * 0 + 2] == ':';
      forall k | 0 <= k < |s|
        ensures StandsFor(t[i + 3 + 3 * k], s[k] / 16) && StandsFor(t[i + 3 + 3 * k + 1], s[k] % 16)
        ensures k < |s| - 1 ==> t[i + 3 + 3 * k + 2] == ':'
      {
        assert u[k + 1] == s[k] && i + 3 * (k + 1) == i + 3 + 3 * k;
        assert StandsFor(t[i + 3 * (k + 1)], u[k + 1] / 16) && StandsFor(t[i + 3 * (k + 1) + 1], u[k + 1] % 16);
        assert k < |s| - 1 ==> t[i + 3 * (k + 1) + 2] == ':';
      }
    }
    if HexBody(t, i, [b]) && t[i + 2] == ':' && HexBody(t, i + 3, s) {
      forall k | 0 <= k < |u|
        ensures StandsFor(t[i + 3 * k], u[k] / 16) && StandsFor(t[i + 3 * k + 1], u[k] % 16)
        ensures k < |u| - 1 ==> t[i + 3 * k + 2] == ':'
      {
        if k > 0 {
          var j := k - 1;
          assert u[k] == s[j] && i + 3 * k == i + 3 + 3 * j;
          assert StandsFor(t[i + 3 + 3 * j], s[j] / 16) && StandsFor(t[i + 3 + 3 * j + 1], s[j] % 16);
          assert j < |s| - 1 ==> t[i + 3 + 3 * j + 2] == ':';
        }
      }
    }
  }

  /** Pairs of digits, and then only space, are read as their octets. */
  lemma {:induction false} BodyIsRead(t: string, i: nat, acc: seq<u8>, s: seq<u8>)
    requires HexBody(t, i, s) && Blank(t[i + 3 * |s| - 1..])
    ensures HexPairs(t, i, acc) == Some(acc + s)
    decreases |s|
  {
    hide StandsFor, Blank;
    var b, rest := s[0], s[1..];
    assert s == [b] + rest;
    if rest == [] {
      OneOctet(t, i, b);
      PairIsRead(t, i, acc, b);
      BlankIsSpace(t, i + 2);
      ColonIsNoSpace(t, i + 2);
      assert acc + [b] == acc + s;
    } else {
      MoreOctets(t, i, b, rest);
      OneOctet(t, i, b);
      PairIsRead(t, i, acc, b);
      assert i + 3 * |s| - 1 == i + 3 + 3 * |rest| - 1;
      BodyIsRead(t, i + 3, acc + [b], rest);
      assert acc + [b] + rest == acc + s;
    }
  }

  lemma PairIsRead(t: string, i: nat, acc: seq<u8>, b: u8)
    requires i + 2 <= |t| && StandsFor(t[i], b / 16) && StandsFor(t[i + 1], b % 16)
    ensures HexPairs(t, i, acc) == AfterPair(t, i + 2, acc + [b])
  {
    DigitsStand(t[i], b / 16);
    DigitsStand(t[i + 1], b % 16);
  }

  lemma ColonIsNoSpace(t: string, i: nat)
    requires i <= |t| && OnlySpace(t, i)
    ensures i < |t| ==> t[i] != ':'
  {}

  /** And nothing else is. */
  lemma {:induction false} ReadIsBody(t: string, i: nat, acc: seq<u8>) returns (s: seq<u8>)
    requires i <= |t| && HexPairs(t, i, acc).Some?
    ensures HexBody(t, i, s) && Blank(t[i + 3 * |s| - 1..]) && HexPairs(t, i, acc) == Some(acc + s)
    decreases |t| - i
  {
    hide StandsFor, Blank;
    var b: u8 := HexValue(t[i]) * 16 + HexValue(t[i + 1]);
    DigitsStand(t[i], b / 16);
    DigitsStand(t[i + 1], b % 16);
    OneOctet(t, i, b);
    if i + 2 < |t| && t[i + 2] == ':' {
      var rest := ReadIsBody(t, i + 3, acc + [b]);
      s := [b] + rest;
      MoreOctets(t, i, b, rest);
      assert acc + [b] + rest == acc + s;
    } else {
      s := [b];
      BlankIsSpace(t, i + 2);
    }
  }

  /** The text is hexadecimal and not a decimal number: two octets or a letter show it. */
  predicate IsHexText(t: string, i: nat, s: seq<u8>) {
    && HexBody(t, i, s) && Blank(t[..i]) && Blank(t[i + 3 * |s| - 1..])
    && (|s| >= 2 || t[i] > '9' || t[i + 1] > '9')
  }

  lemma RunOfTwo(t: string, i: nat)
    requires i + 2 <= |t|
    ensures Decimal.IsDigit(t[i]) && !Decimal.IsDigit(t[i + 1]) ==> Decimal.RunEnd(t, i, |t|) == i + 1
    ensures Decimal.IsDigit(t[i]) && Decimal.IsDigit(t[i + 1]) && (i + 2 == |t| || !Decimal.IsDigit(t[i + 2])) ==>
      Decimal.RunEnd(t, i, |t|) == i + 2
  {
    if Decimal.IsDigit(t[i]) {
      assert Decimal.RunEnd(t, i, |t|) == Decimal.RunEnd(t, i + 1, |t|);
      if Decimal.IsDigit(t[i + 1]) {
        assert Decimal.RunEnd(t, i + 1, |t|) == Decimal.RunEnd(t, i + 2, |t|);
      }
    }
  }

  lemma FirstPair(t: string, i: nat, s: seq<u8>)
    requires HexBody(t, i, s)
    ensures IsHex(t[i]) && IsHex(t[i + 1]) && !IsSpace(t[i]) && !IsSpace(t[i + 1])
    ensures i + 2 <= i + 3 * |s| - 1 <= |t| && (|s| >= 2 ==> t[i + 2] == ':')
  {
    assert StandsFor(t[i + 3 * 0], s[0] / 16) && StandsFor(t[i + 3 * 0 + 1], s[0] % 16);
    assert |s| >= 2 ==> t[i + 3 * 0 + 2] == ':';
    DigitsStand(t[i], s[0] / 16);
    DigitsStand(t[i + 1], s[0] % 16);
  }

  /** Hexadecimal text, with letters of either case and space around it, is read as its octets. */
  lemma HexIsRead(sp: Option<Specifics>, t: string, i: nat, s: seq<u8>)
    requires IsHexText(t, i, s)
    ensures MeaningOf(sp, t) == Hex(s)
  {
    hide HexBody, Blank, HexPairs, DecimalMeaning;
    FirstPair(t, i, s);
    BodyIsRead(t, i, [], s);
    assert [] + s == s;
    assert t[0..i] == t[..i];
    SkipSpaceIs(t, 0, i);
    RunOfTwo(t, i);
    if |s| == 1 {
      BlankIsSpace(t, i + 2);
    }
  }

  /** And no other text is. */
  lemma HexOnly(sp: Option<Specifics>, t: string, s: seq<u8>)
    requires MeaningOf(sp, t) == Hex(s)
    ensures exists i :: 0 <= i <= |t| && IsHexText(t, i, s)
  {
    hide HexBody, Blank, DecimalMeaning;
    var i := SkipSpace(t, 0);
    HexMeant(sp, t);
    var u := ReadIsBody(t, i, []);
    assert [] + u == u;
    assert t[0..i] == t[..i];
    SkipSpaceIs(t, 0, i);
    FirstPair(t, i, s);
    RunOfTwo(t, i);
    if |s| == 1 {
      BlankIsSpace(t, i + 2);
      DecimalIsNoHex(t, i, i + 2);
    }
    assert IsHexText(t, i, s);
  }

  lemma DecimalIsNoHex(t: string, i: nat, j: nat)
    requires i <= j <= |t|
    ensures !DecimalMeaning(t, i, j).Hex?
  {}

  lemma HexMeant(sp: Option<Specifics>, t: string)
    requires MeaningOf(sp, t).Hex?
    ensures HexMeaning(t) == MeaningOf(sp, t)
  {}

  /** Digits from `at` to `e`, a sign at most before them, and space around. */
  predicate IsDecimalText(t: string, i: nat, at: nat, e: nat) {
    && i <= at < e <= |t| && Blank(t[..i]) && Blank(t[e..])
    && (at == i || (at == i + 1 && (t[i] == '+' || t[i] == '-')))
    && forall k :: at <= k < e ==> '0' <= t[k] <= '9'
  }

  lemma {:induction false} RunIs(t: string, i: nat, e: nat)
    requires i <= e <= |t| && (forall k :: i <= k < e ==> Decimal.IsDigit(t[k]))
    requires e < |t| ==> !Decimal.IsDigit(t[e])
    ensures Decimal.RunEnd(t, i, |t|) == e
    decreases e - i
  {
    if i < e {
      RunIs(t, i + 1, e);
    }
  }

  lemma BlankStarts(t: string, e: nat)
    requires e < |t| && Blank(t[e..])
    ensures IsSpace(t[e])
  {
    assert t[e..][0] == t[e];
  }

  lemma DecimalStarts(sp: Option<Specifics>, t: string, i: nat, at: nat, e: nat)
    requires IsDecimalText(t, i, at, e)
    ensures MeaningOf(sp, t) == DecimalMeaning(t, i, e)
  {
    hide Blank, DecimalMeaning;
    if e < |t| {
      BlankStarts(t, e);
    }
    assert t[0..i] == t[..i];
    SkipSpaceIs(t, 0, i);
    RunIs(t, at, e);
    BlankIsSpace(t, e);
  }

  /** Decimal text, with a sign and space around it, is read as its number, if that is a signed
      64-bit one and the reader does not overflow on the way. */
  lemma DecimalIsRead(sp: Option<Specifics>, t: string, i: nat, at: nat, e: nat)
    requires IsDecimalText(t, i, at, e)
    ensures Decimal.Digits(t, at, e)
    ensures var v := Decimal.DecimalValue(t, at, e);
      MeaningOf(sp, t) ==
        if t[i] != '-' then (if v <= INT64_MAX then Num(v) else TooLarge)
        else if Decimal.ContinuesMinimum(t, at, at, e) then Overflow
        else if v <= INT64_MAX + 1 then Num(-(v as int))
        else TooLarge
  {
    hide MeaningOf, Blank, Decimal.DecimalValue, Decimal.ReadSigned, Decimal.ContinuesMinimum;
    DecimalStarts(sp, t, i, at, e);
    Decimal.SignedIsExact(t, at, e);
    Decimal.OkHasValue(t, i, e);
  }

  /** Apart from tags no other text is read as a number. */
  lemma NumOnly(sp: Option<Specifics>, t: string)
    requires MeaningOf(sp, t).Num?
    ensures var i := SkipSpace(t, 0);
      && Blank(t[..i]) && i < |t|
      && ((sp.Some? && t[i] == '<') || exists at, e :: IsDecimalText(t, i, at, e))
  {
    hide Blank, DecimalMeaning, HexPairs, LookupTag;
    var i := SkipSpace(t, 0);
    assert t[0..i] == t[..i];
    SkipSpaceIs(t, 0, i);
    if t[i] != '<' {
      var at := if t[i] == '-' || t[i] == '+' then i + 1 else i;
      var e := Decimal.RunEnd(t, at, |t|);
      BlankIsSpace(t, e);
      assert IsDecimalText(t, i, at, e);
    }
  }

  /** Nothing is found exactly in space. */
  lemma NothingInSpace(sp: Option<Specifics>, t: string)
    ensures MeaningOf(sp, t) == Nothing <==> Blank(t)
  {
    hide Blank, DecimalMeaning, HexPairs, LookupTag;
    BlankIsSpace(t, 0);
    assert t[0..] == t;
    DecimalHasNumber(t);
  }

  lemma DecimalHasNumber(t: string)
    ensures forall i: nat, j: nat :: i <= j <= |t| ==> !DecimalMeaning(t, i, j).Nothing?
  {}

  // ----- what the printer writes, on the characters themselves

  /** Hexadecimal text is in upper case. */
  lemma HexIsUpperCase(s: seq<u8>)
    ensures s != [] ==> HexBody(HexText(s), 0, s) && |HexText(s)| == 3 * |s| - 1
    ensures forall i :: 0 <= i < |HexText(s)| ==> !('a' <= HexText(s)[i] <= 'z')
  {
    hide HexText, HexChar;
    if s == [] {
      HexTextIs(s);
    } else {
      HexTextAt(s, 0);
      forall k | 0 <= k < |s|
        ensures StandsFor(HexText(s)[3 * k], s[k] / 16) && StandsFor(HexText(s)[3 * k + 1], s[k] % 16)
        ensures k < |s| - 1 ==> HexText(s)[3 * k + 2] == ':'
      {
        HexTextAt(s, k);
        UpperCase(s[k] / 16);
        UpperCase(s[k] % 16);
      }
      forall i | 0 <= i < |HexText(s)| ensures !('a' <= HexText(s)[i] <= 'z') {
        HexTextAt(s, i / 3);
        UpperCase(s[i / 3] / 16);
        UpperCase(s[i / 3] % 16);
        assert i == 3 * (i / 3) + i % 3;
      }
    }
  }

  lemma UpperCase(d: nat)
    requires d < 16
    ensures StandsFor(HexChar(d), d) && !('a' <= HexChar(d) <= 'z')
  {}

  /** The value of an entry is printed as a tag, or as the number and the name in brackets. */
  lemma EntryIsPrinted(sp: Specifics, s: seq<u8>, i: nat)
    requires WellFormed(sp) && i < |sp.value2enum| && !sp.isUnsigned && Signed(s) == sp.value2enum[i].natValue
    ensures var name := sp.value2enum[i].name;
      && Printed(Some(sp), s, true) == Some(['<'] + name + ['/', '>'])
      && Printed(Some(sp), s, false) == Some(DecimalText(Signed(s)) + [' ', '('] + name + [')'])
  {
    hide Signed, DecimalText, SortedByName;
    var v := sp.value2enum[i].natValue;
    var r := FindValue(sp.value2enum, v, 0);
    assert r.Some? && r.value == i;
  }

  /** A number without an entry is not printed for a strict type in XER, and otherwise as a
      decimal of up to 64 bits or as octets. */
  lemma OtherIsPrinted(sp: Option<Specifics>, s: seq<u8>, xer: bool)
    requires sp.Some? ==> forall i :: 0 <= i < |sp.value.value2enum| ==>
      sp.value.value2enum[i].natValue != (if sp.value.isUnsigned then Unsigned(s) else Signed(s))
    ensures var isUnsigned := sp.Some? && sp.value.isUnsigned;
      var v: int := if isUnsigned then Unsigned(s) else Signed(s);
      var word := if isUnsigned then v <= 0xffff_ffff_ffff_ffff else INT64_MIN <= v <= INT64_MAX;
      Printed(sp, s, xer) ==
        if xer && sp.Some? && sp.value.strict then None
        else if word then Some(if v < 0 then "-" + Decimal.NaturalText(-v) else Decimal.NaturalText(v))
        else Some(HexText(s))
  {
    hide Signed, Unsigned, HexText, Decimal.NaturalText;
  }
}
