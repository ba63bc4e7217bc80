/**
 * runtime/linenoise-ng/ConvertUTF.cpp. `StepOf` is what one turn of a converter's loop does to the pointers, `Run` the
 * whole loop; the six methods are the loops themselves, over an array they write in place.
 */
module ConvertUtf {
  import opened Unicode

  datatype ConversionResult = ConversionOK | SourceExhausted | TargetExhausted | SourceIllegal
  datatype ConversionFlags = StrictConversion | LenientConversion
  datatype Converter = C32to16 | C16to32 | C16to8 | C8to16 | C32to8 | C8to32

  const UNI_REPLACEMENT_CHAR: UTF32 := 0xFFFD
  const UNI_MAX_BMP: UTF32 := 0xFFFF
  const UNI_MAX_LEGAL_UTF32: UTF32 := 0x10FFFF
  const UNI_SUR_HIGH_START: UTF32 := 0xD800
  const UNI_SUR_HIGH_END: UTF32 := 0xDBFF
  const UNI_SUR_LOW_START: UTF32 := 0xDC00
  const UNI_SUR_LOW_END: UTF32 := 0xDFFF
  const HALF_BASE: UTF32 := 0x10000
  const HALF_MASK: UTF32 := 0x3FF

  // ---------------------------------------------------------------- one turn

  /** Either the loop breaks, or it reads some units, writes some, and possibly leaves the code sourceIllegal behind. */
  datatype Step = Stop(result: ConversionResult) | Emit(read: nat, units: seq<UTF32>, illegal: bool)

  predicate IsHigh(ch: UTF32) { UNI_SUR_HIGH_START <= ch <= UNI_SUR_HIGH_END }
  predicate IsLow(ch: UTF32) { UNI_SUR_LOW_START <= ch <= UNI_SUR_LOW_END }
  predicate IsSurrogate(ch: UTF32) { UNI_SUR_HIGH_START <= ch <= UNI_SUR_LOW_END }

  function HighHalf(ch: UTF32): UTF16 { (((ch - HALF_BASE) >> 10) + UNI_SUR_HIGH_START) & 0xFFFF }
  function LowHalf(ch: UTF32): UTF16 { (((ch - HALF_BASE) & HALF_MASK) + UNI_SUR_LOW_START) & 0xFFFF }
  function FromPair(ch: UTF32, ch2: UTF32): UTF32 {
    ((ch - UNI_SUR_HIGH_START) << 10) + (ch2 - UNI_SUR_LOW_START) + HALF_BASE
  }

  /** trailingBytesForUTF8. */
  function TrailingBytes(b: UTF32): nat {
    if b < 0xC0 then 0 else if b < 0xE0 then 1 else if b < 0xF0 then 2
    else if b < 0xF8 then 3 else if b < 0xFC then 4 else 5
  }

  function MarkedByte(ch: UTF32): UTF8 { ((ch | 0x80) & 0xBF) & 0xFF }

  /** firstByteMark. */
  function FirstByteMark(bytesToWrite: nat): UTF8 {
    if bytesToWrite <= 1 then 0x00 else if bytesToWrite == 2 then 0xC0 else if bytesToWrite == 3 then 0xE0
    else if bytesToWrite == 4 then 0xF0 else if bytesToWrite == 5 then 0xF8 else 0xFC
  }

  function Drop(ch: UTF32): UTF32 { ch >> 6 }
  function FirstByte(ch: UTF32, bytesToWrite: nat): UTF8 { (ch | FirstByteMark(bytesToWrite)) & 0xFF }

  /** The bytes that the writing switch stores for `bytesToWrite`, in target order. */
  function WrittenBytes(ch: UTF32, bytesToWrite: nat): (s: seq<UTF8>)
    requires 1 <= bytesToWrite <= 4
    ensures |s| == bytesToWrite
  {
    if bytesToWrite == 1 then [FirstByte(ch, 1)]
    else if bytesToWrite == 2 then [FirstByte(Drop(ch), 2), MarkedByte(ch)]
    else if bytesToWrite == 3 then [FirstByte(Drop(Drop(ch)), 3), MarkedByte(Drop(ch)), MarkedByte(ch)]
    else [FirstByte(Drop(Drop(Drop(ch))), 4), MarkedByte(Drop(Drop(ch))), MarkedByte(Drop(ch)), MarkedByte(ch)]
  }

  /** The value that the reading switch and offsetsFromUTF8 compute from 1 to 4 bytes. */
  function ReadValue(s: seq<UTF32>): UTF32
    requires 1 <= |s| <= 4
  {
    if |s| == 1 then AddLast(0, s[0], 0)
    else if |s| == 2 then Value2(s[0], s[1])
    else if |s| == 3 then Value3(s[0], s[1], s[2])
    else Value4(s[0], s[1], s[2], s[3])
  }

  function AddByte(ch: UTF32, b: UTF32): UTF32 { (ch + b) << 6 }
  function AddLast(ch: UTF32, b: UTF32, offset: UTF32): UTF32 { ch + b - offset }
  function Value2(a: UTF32, b: UTF32): UTF32 { AddLast(AddByte(0, a), b, 0x3080) }
  function Value3(a: UTF32, b: UTF32, c: UTF32): UTF32 { AddLast(AddByte(AddByte(0, a), b), c, 0xE2080) }
  function Value4(a: UTF32, b: UTF32, c: UTF32, d: UTF32): UTF32 {
    AddLast(AddByte(AddByte(AddByte(0, a), b), c), d, 0x3C82080)
  }

  /** The ill-formed sequences that isLegalUTF8 lets through: a second byte below 0x80 after ED or F4. */
  predicate LegalQuirk(s: seq<UTF32>) {
    || (|s| == 3 && s[0] == 0xED && s[1] < 0x80 && IsTail(s[2]))
    || (|s| == 4 && s[0] == 0xF4 && s[1] < 0x80 && IsTail(s[2]) && IsTail(s[3]))
  }

  predicate Legal(s: seq<UTF32>) { WellFormedChar(s) || LegalQuirk(s) }

  function BytesToWrite(ch: UTF32): (n: nat)
    ensures 1 <= n <= 4
  {
    if ch < 0x80 then 1 else if ch < 0x800 then 2 else if ch < 0x10000 then 3 else if ch < 0x110000 then 4 else 3
  }

  /** The shared writing half of the two converters to UTF-8; only one of them reports a value out of range. */
  function EmitBytes(ch: UTF32, read: nat, room: nat, reports: bool): Step {
    var n := BytesToWrite(ch);
    if n > room then Stop(TargetExhausted)
    else if ch > UNI_MAX_LEGAL_UTF32 then Emit(read, WrittenBytes(UNI_REPLACEMENT_CHAR, n), reports)
    else Emit(read, WrittenBytes(ch, n), false)
  }

  function Step32to16(src: seq<UTF32>, room: nat, flags: ConversionFlags): Step
    requires |src| > 0
  {
    var ch := src[0];
    if room == 0 then Stop(TargetExhausted)
    else if ch <= UNI_MAX_BMP then
      if IsSurrogate(ch) then
        if flags.StrictConversion? then Stop(SourceIllegal) else Emit(1, [UNI_REPLACEMENT_CHAR], false)
      else Emit(1, [ch], false)
    else if ch > UNI_MAX_LEGAL_UTF32 then
      if flags.StrictConversion? then Emit(1, [], true) else Emit(1, [UNI_REPLACEMENT_CHAR], false)
    else if room < 2 then Stop(TargetExhausted)
    else Emit(1, [HighHalf(ch), LowHalf(ch)], false)
  }

  /** The shared reading half of the two converters from UTF-16: a break, or the value and the units it took. */
  datatype Read16 = Break(result: ConversionResult) | Read(ch: UTF32, units: nat)

  function ReadFrom16(src: seq<UTF32>, flags: ConversionFlags): Read16
    requires |src| > 0
  {
    var ch := src[0];
    if IsHigh(ch) then
      if |src| == 1 then Break(SourceExhausted)
      else if IsLow(src[1]) then Read(FromPair(ch, src[1]), 2)
      else if flags.StrictConversion? then Break(SourceIllegal)
      else Read(ch, 1)
    else if flags.StrictConversion? && IsLow(ch) then Break(SourceIllegal)
    else Read(ch, 1)
  }

  function Step16to32(src: seq<UTF32>, room: nat, flags: ConversionFlags): Step
    requires |src| > 0
  {
    match ReadFrom16(src, flags)
    case Break(result) => Stop(result)
    case Read(ch, n) => if room == 0 then Stop(TargetExhausted) else Emit(n, [ch], false)
  }

  function Step16to8(src: seq<UTF32>, room: nat, flags: ConversionFlags): Step
    requires |src| > 0
  {
    match ReadFrom16(src, flags)
    case Break(result) => Stop(result)
    case Read(ch, n) => EmitBytes(ch, n, room, false)
  }

  function Step32to8(src: seq<UTF32>, room: nat, flags: ConversionFlags): Step
    requires |src| > 0
  {
    if flags.StrictConversion? && IsSurrogate(src[0]) then Stop(SourceIllegal) else EmitBytes(src[0], 1, room, true)
  }

  function Step8to16(src: seq<UTF32>, room: nat, flags: ConversionFlags): Step
    requires |src| > 0
  {
    var extra := TrailingBytes(src[0]);
    if extra >= |src| then Stop(SourceExhausted)
    else if !Legal(src[..extra + 1]) then Stop(SourceIllegal)
    else
      var ch := ReadValue(src[..extra + 1]);
      if room == 0 then Stop(TargetExhausted)
      else if ch <= UNI_MAX_BMP then
        if IsSurrogate(ch) then
          if flags.StrictConversion? then Stop(SourceIllegal) else Emit(extra + 1, [UNI_REPLACEMENT_CHAR], false)
        else Emit(extra + 1, [ch], false)
      else if ch > UNI_MAX_LEGAL_UTF32 then
        if flags.StrictConversion? then Stop(SourceIllegal) else Emit(extra + 1, [UNI_REPLACEMENT_CHAR], false)
      else if room < 2 then Stop(TargetExhausted)
      else Emit(extra + 1, [HighHalf(ch), LowHalf(ch)], false)
  }

  function Step8to32(src: seq<UTF32>, room: nat, flags: ConversionFlags): Step
    requires |src| > 0
  {
    var extra := TrailingBytes(src[0]);
    if extra >= |src| then Stop(SourceExhausted)
    else if !Legal(src[..extra + 1]) then Stop(SourceIllegal)
    else
      var ch := ReadValue(src[..extra + 1]);
      if room == 0 then Stop(TargetExhausted)
      else if ch <= UNI_MAX_LEGAL_UTF32 then
        if IsSurrogate(ch) then
          if flags.StrictConversion? then Stop(SourceIllegal) else Emit(extra + 1, [UNI_REPLACEMENT_CHAR], false)
        else Emit(extra + 1, [ch], false)
      else Emit(extra + 1, [UNI_REPLACEMENT_CHAR], true)
  }

  function StepOf(c: Converter, flags: ConversionFlags, src: seq<UTF32>, room: nat): (step: Step)
    requires |src| > 0
    ensures step.Emit? ==> 1 <= step.read <= |src| && |step.units| <= room && |step.units| <= 4
  {
    match c
    case C32to16 => Step32to16(src, room, flags)
    case C16to32 => Step16to32(src, room, flags)
    case C16to8 => Step16to8(src, room, flags)
    case C8to16 => Step8to16(src, room, flags)
    case C32to8 => Step32to8(src, room, flags)
    case C8to32 => Step8to32(src, room, flags)
  }

  // ---------------------------------------------------------------- the whole loop

  /** The returned code, how far the source pointer moved, and the units written. */
  datatype Outcome = Outcome(result: ConversionResult, read: nat, out: seq<UTF32>) {
    /** This outcome followed by another: a later code replaces an earlier one. */
    function Then(next: Outcome): Outcome {
      Outcome(if next.result == ConversionOK then result else next.result, read + next.read, out + next.out)
    }
  }

  const NOTHING := Outcome(ConversionOK, 0, [])

  function Run(c: Converter, flags: ConversionFlags, src: seq<UTF32>, room: nat): (o: Outcome)
    ensures o.read <= |src| && |o.out| <= room
    decreases |src|
  {
    if |src| == 0 then NOTHING
    else
      match StepOf(c, flags, src, room)
      case Stop(result) => Outcome(result, 0, [])
      case Emit(n, units, illegal) => OneTurn(n, units, illegal).Then(Run(c, flags, src[n..], room - |units|))
  }

  function OneTurn(n: nat, units: seq<UTF32>, illegal: bool): Outcome {
    Outcome(if illegal then SourceIllegal else ConversionOK, n, units)
  }
}
