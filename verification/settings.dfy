/** Serial line settings: the parity and stop-bit names accepted on the command
    line, the number of bits one character takes on the wire, the time a run
    of characters takes, and the silence threshold that ends a packet. */
module Settings {
  import opened Wrappers
  import opened Pcap

  const NanosPerMicrosecond: int := 1000
  const NanosPerMillisecond: int := 1_000_000

  datatype Parity = NoParity | OddParity | EvenParity | MarkParity | SpaceParity
  datatype StopBits = OneStopBit | TwoStopBits

  /** Rejected settings, carrying the offending value. */
  datatype SettingError = InvalidParity(name: string) | InvalidStopBits(count: int)

  /** The command-line name of a parity setting. */
  function ParityName(p: Parity): string
  {
    match p
    case NoParity => "none"
    case OddParity => "odd"
    case EvenParity => "even"
    case MarkParity => "mark"
    case SpaceParity => "space"
  }

  /** Parses a parity name: exactly the five names are accepted (lower case
      only), and the accepted name is the name of the parity returned. */
  function ParseParity(s: string): (r: Result<Parity, SettingError>)
    ensures r.Success? <==> s in {"none", "odd", "even", "mark", "space"}
    ensures r.Success? ==> ParityName(r.value) == s
    ensures r.Failure? ==> r.error == InvalidParity(s)
  {
    if s == "none" then Success(NoParity)
    else if s == "odd" then Success(OddParity)
    else if s == "even" then Success(EvenParity)
    else if s == "mark" then Success(MarkParity)
    else if s == "space" then Success(SpaceParity)
    else Failure(InvalidParity(s))
  }

  /** Parsing the name of a parity gives that parity back. */
  lemma ParseParityName(p: Parity)
    ensures ParseParity(ParityName(p)) == Success(p)
  {
    match p
    case NoParity =>
    case OddParity => assert ParityName(p) != "none";
    case EvenParity => assert ParityName(p) != "none" && ParityName(p) != "odd";
    case MarkParity => assert ParityName(p) !in {"none", "odd", "even"};
    case SpaceParity => assert ParityName(p) !in {"none", "odd", "even", "mark"};
  }

  /** The number of stop bits a setting stands for. */
  function StopBitCount(b: StopBits): int
  {
    match b
    case OneStopBit => 1
    case TwoStopBits => 2
  }

  /** Parses a stop-bit count: only 1 and 2 are accepted, and the setting
      returned stands for the count given. */
  function ParseStopBits(n: int): (r: Result<StopBits, SettingError>)
    ensures r.Success? <==> n == 1 || n == 2
    ensures r.Success? ==> StopBitCount(r.value) == n
    ensures r.Failure? ==> r.error == InvalidStopBits(n)
  {
    if n == 1 then Success(OneStopBit)
    else if n == 2 then Success(TwoStopBits)
    else Failure(InvalidStopBits(n))
  }

  /** Parsing the count of a stop-bit setting gives that setting back. */
  lemma ParseStopBitsCount(b: StopBits)
    ensures ParseStopBits(StopBitCount(b)) == Success(b)
  {
  }

  /** Bits per character on the wire: a start bit, the data bits, a parity bit
      unless the parity name is "none", and the stop bits. */
  function CharBits(dataBits: int, stopBits: int, parity: string): (bits: int)
    ensures parity == "none" <==> bits == 1 + dataBits + stopBits
    ensures parity != "none" <==> bits == 2 + dataBits + stopBits
  {
    var bits := 1 + dataBits;
    var bits := if parity != "none" then bits + 1 else bits;
    bits + stopBits
  }

  /** For settings that parse, a character takes 7 to 12 bits (5 to 8 data
      bits), and exactly one extra bit for every parity except "none". */
  lemma CharBitsOfSettings(dataBits: int, p: Parity, b: StopBits)
    requires 5 <= dataBits <= 8
    ensures var bits := CharBits(dataBits, StopBitCount(b), ParityName(p));
            && 7 <= bits <= 12
            && bits == 1 + dataBits + StopBitCount(b) + (if p == NoParity then 0 else 1)
  {
    assert (ParityName(p) == "none") == (p == NoParity) by {
      if p != NoParity {
        assert ParityName(p)[0] != 'n';
      }
    }
  }

  /** Nanoseconds a run of bytes takes on the wire, as a function of the byte
      count. A wire-time function is valid when no bytes take no time and more
      bytes never take less time. */
  type WireTime = nat -> int

  ghost predicate ValidWire(wire: WireTime)
  {
    && wire(0) == 0
    && forall a: nat, b: nat :: a <= b ==> wire(a) <= wire(b)
  }

  /** The wire time of `n` characters of `bits` bits at `baud` bits per second,
      in exact arithmetic truncated to whole nanoseconds. */
  function ByteWireTime(bits: nat, baud: int): (wire: WireTime)
    requires baud > 0
  {
    (n: nat) => n * bits * NanosPerSecond / baud
  }

  /** The concrete wire time is a valid one: zero for no bytes and monotone. */
  lemma ByteWireTimeValid(bits: nat, baud: int)
    requires baud > 0
    ensures ValidWire(ByteWireTime(bits, baud))
  {
    var wire := ByteWireTime(bits, baud);
    forall a: nat, b: nat | a <= b
      ensures wire(a) <= wire(b)
    {
      var x, y := a * bits * NanosPerSecond, b * bits * NanosPerSecond;
      assert x <= y by {
        MulMonotone(a, b, bits * NanosPerSecond);
      }
      DivMonotone(x, y, baud);
    }
  }

  lemma MulMonotone(a: nat, b: nat, k: nat)
    requires a <= b
    ensures a * k <= b * k
  {
  }

  lemma DivMonotone(x: int, y: int, d: int)
    requires 0 <= x <= y && d > 0
    ensures x / d <= y / d
  {
    assert (x / d) * d <= x;
    DivLowerBound(y, x / d, d);
  }

  /** Dividing by a larger divisor gives no more. */
  lemma DivLargerDivisor(x: int, d1: int, d2: int)
    requires 0 <= x && 0 < d1 <= d2
    ensures x / d2 <= x / d1
  {
    var q: nat := x / d2;
    assert q * d2 <= x;
    MulMonotone(d1, d2, q);
    DivLowerBound(x, q, d1);
  }

  /** Multiplying by a positive factor keeps a strict order, read backwards. */
  lemma MulStrictMonotone(a: int, b: int, d: int)
    requires d > 0 && a * d < b * d
    ensures a < b
  {
    var e := b - a;
    assert e * d == b * d - a * d;
    assert e * d > 0;
  }

  /** A multiple of the divisor below the dividend bounds the quotient. */
  lemma DivLowerBound(x: int, q: nat, d: int)
    requires d > 0 && q * d <= x
    ensures q <= x / d
  {
    var r := x / d;
    assert x < (r + 1) * d;
    MulStrictMonotone(q, r + 1, d);
  }

  /** Three and a half character times, truncated to whole nanoseconds. */
  function DefaultSilence(bits: int, baud: int): (t: int)
    requires baud > 0
    ensures t * 2 * baud <= 7 * bits * NanosPerSecond < (t + 1) * 2 * baud
  {
    7 * bits * NanosPerSecond / (2 * baud)
  }

  /** The wire time of a 256-byte frame, truncated to whole nanoseconds, plus
      25 ms of margin. */
  function ModbusSilence(bits: int, baud: int): (t: int)
    requires baud > 0
    ensures var w := t - 25 * NanosPerMillisecond;
            w * baud <= 256 * bits * NanosPerSecond < (w + 1) * baud
  {
    256 * bits * NanosPerSecond / baud + 25 * NanosPerMillisecond
  }

  /** The silence threshold: an explicit positive override (in microseconds,
      truncated to whole nanoseconds) wins; otherwise Modbus mode uses the
      frame-time threshold and raw mode the 3.5-character one. */
  function SilenceThreshold(overrideMicros: real, modbusMode: bool, bits: int, baud: int): (t: int)
    requires baud > 0
    ensures overrideMicros > 0.0 ==>
              t as real <= overrideMicros * 1000.0 < t as real + 1.0
    ensures overrideMicros <= 0.0 && modbusMode ==> t == ModbusSilence(bits, baud)
    ensures overrideMicros <= 0.0 && !modbusMode ==> t == DefaultSilence(bits, baud)
  {
    if overrideMicros > 0.0 then (overrideMicros * NanosPerMicrosecond as real).Floor
    else if modbusMode then ModbusSilence(bits, baud)
    else DefaultSilence(bits, baud)
  }

  /** With automatic thresholds and a valid setting, Modbus mode waits longer
      than raw mode: a full frame plus margin exceeds 3.5 characters. */
  lemma ModbusSilenceExceedsDefault(bits: int, baud: int)
    requires 7 <= bits <= 12 && baud > 0
    ensures ModbusSilence(bits, baud) > DefaultSilence(bits, baud)
  {
    var x := bits * NanosPerSecond;
    DivLargerDivisor(7 * x, baud, 2 * baud);
    DivMonotone(7 * x, 256 * x, baud);
  }
}
