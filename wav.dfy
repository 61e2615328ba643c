/**
 * `write_wav`: the canonical 44-byte RIFF/WAVE header (16-bit mono PCM)
 * followed by the raw PCM samples, with every integer field little-endian.
 */
module Wav {
  import opened Options

  newtype byte = x: int | 0 <= x < 256

  /** Values `struct.pack` accepts for an unsigned 16- or 32-bit field. */
  const U16Limit: nat := 0x1_0000
  const U32Limit: nat := 0x1_0000_0000

  /** The sample rate every caller passes (the parameter's default). */
  const SampleRate: nat := 16000

  const HeaderBytes: nat := 44

  // ASCII tags of the container.
  const Riff: seq<byte> := [0x52, 0x49, 0x46, 0x46]                           // "RIFF"
  const WaveFmt: seq<byte> := [0x57, 0x41, 0x56, 0x45, 0x66, 0x6D, 0x74, 0x20] // "WAVEfmt "
  const Data: seq<byte> := [0x64, 0x61, 0x74, 0x61]                           // "data"

  /** The unsigned value of a little-endian byte string. */
  function FromLE(s: seq<byte>): nat {
    if s == [] then 0 else s[0] as nat + 256 * FromLE(s[1..])
  }

  /** `struct.pack('<H', x)`. */
  function LE16(x: nat): (r: seq<byte>)
    requires x < U16Limit
    ensures |r| == 2
  {
    [(x % 256) as byte, (x / 256) as byte]
  }

  /** `struct.pack('<I', x)`. */
  function LE32(x: nat): (r: seq<byte>)
    requires x < U32Limit
    ensures |r| == 4
  {
    LE16(x % U16Limit) + LE16(x / U16Limit)
  }

  /** Reading the two bytes back gives the value packed. */
  lemma LE16Value(x: nat)
    requires x < U16Limit
    ensures FromLE(LE16(x)) == x
  {
    var r := LE16(x);
    assert FromLE(r[1..]) == x / 256 by { assert r[1..][1..] == []; }
  }

  /** Reading the four bytes back gives the value packed. */
  lemma LE32Value(x: nat)
    requires x < U32Limit
    ensures FromLE(LE32(x)) == x
  {
    var lo, hi := LE16(x % U16Limit), LE16(x / U16Limit);
    LE16Value(x % U16Limit);
    LE16Value(x / U16Limit);
    LEConcat(lo, hi);
    assert Pow256(|lo|) == U16Limit by { assert Pow256(1) == 256; }
  }

  /** Little-endian values of concatenated byte strings. */
  lemma {:induction false} LEConcat(a: seq<byte>, b: seq<byte>)
    ensures FromLE(a + b) == FromLE(a) + Pow256(|a|) * FromLE(b)
  {
    if a != [] {
      assert (a + b)[1..] == a[1..] + b;
      LEConcat(a[1..], b);
      calc {
        FromLE(a + b);
        a[0] as nat + 256 * FromLE(a[1..] + b);
        a[0] as nat + 256 * (FromLE(a[1..]) + Pow256(|a| - 1) * FromLE(b));
        { assert 256 * (Pow256(|a| - 1) * FromLE(b)) == (256 * Pow256(|a| - 1)) * FromLE(b); }
        FromLE(a) + Pow256(|a|) * FromLE(b);
      }
    } else {
      assert a + b == b;
    }
  }

  function Pow256(n: nat): (p: nat)
    ensures p >= 1
  {
    if n == 0 then 1 else 256 * Pow256(n - 1)
  }

  /** The container can be written: every field fits its `struct.pack` format. */
  predicate Packable(pcm: seq<byte>, sr: nat) {
    36 + |pcm| < U32Limit && sr * 2 < U32Limit
  }

  /** The bytes `write_wav(path, pcm, sr)` leaves in the file when no field overflows. */
  function WavFile(pcm: seq<byte>, sr: nat): (r: Option<seq<byte>>)
    ensures r.Some? <==> Packable(pcm, sr)
    ensures r.Some? ==> |r.value| == HeaderBytes + |pcm| && r.value[HeaderBytes..] == pcm
  {
    if Packable(pcm, sr) then
      Some(Riff + LE32(36 + |pcm|) + WaveFmt
           + LE32(16) + LE16(1) + LE16(1) + LE32(sr) + LE32(sr * 2) + LE16(2) + LE16(16)
           + Data + LE32(|pcm|) + pcm)
    else None
  }

  /** What a reader of the container recovers: the sample rate and the samples. */
  datatype WavInfo = WavInfo(sampleRate: nat, pcm: seq<byte>)

  /**
   * Reads a canonical 16-bit mono PCM container: checks every tag and field
   * `write_wav` writes, and that both size fields agree with the file length.
   */
  function ParseWav(file: seq<byte>): Option<WavInfo> {
    if |file| < HeaderBytes then None
    else if file[0..4] != Riff || FromLE(file[4..8]) != |file| - 8 || file[8..16] != WaveFmt then None
    else if FromLE(file[16..20]) != 16 || FromLE(file[20..22]) != 1 || FromLE(file[22..24]) != 1 then None
    else if FromLE(file[28..32]) != 2 * FromLE(file[24..28]) then None
    else if FromLE(file[32..34]) != 2 || FromLE(file[34..36]) != 16 then None
    else if file[36..40] != Data || FromLE(file[40..44]) != |file| - HeaderBytes then None
    else Some(WavInfo(FromLE(file[24..28]), file[HeaderBytes..]))
  }

  /**
   * Field by field, the header `write_wav` writes: "RIFF", 36 + |pcm|,
   * "WAVEfmt ", then 16, 1, 1, sr, 2 * sr, 2, 16 (`<IHHIIHH`), "data", |pcm|.
   */
  predicate HeaderLayout(file: seq<byte>, pcmLen: nat, sr: nat)
    requires |file| >= HeaderBytes
  {
    && file[0..4] == Riff && FromLE(file[4..8]) == 36 + pcmLen
    && file[8..16] == WaveFmt
    && FromLE(file[16..20]) == 16 && FromLE(file[20..22]) == 1 && FromLE(file[22..24]) == 1
    && FromLE(file[24..28]) == sr && FromLE(file[28..32]) == 2 * sr
    && FromLE(file[32..34]) == 2 && FromLE(file[34..36]) == 16
    && file[36..40] == Data && FromLE(file[40..44]) == pcmLen
  }

  lemma WavFileLayout(pcm: seq<byte>, sr: nat)
    requires Packable(pcm, sr)
    ensures HeaderLayout(WavFile(pcm, sr).value, |pcm|, sr)
  {
    var f := WavFile(pcm, sr).value;
    LE32Value(36 + |pcm|); LE32Value(16); LE16Value(1); LE32Value(sr); LE32Value(sr * 2);
    LE16Value(2); LE16Value(16); LE32Value(|pcm|);
    assert f[4..8] == LE32(36 + |pcm|);
    assert f[16..20] == LE32(16);
    assert f[20..22] == LE16(1);
    assert f[22..24] == LE16(1);
    assert f[24..28] == LE32(sr);
    assert f[28..32] == LE32(sr * 2);
    assert f[32..34] == LE16(2);
    assert f[34..36] == LE16(16);
    assert f[40..44] == LE32(|pcm|);
  }

  /** Reading back what `write_wav` wrote gives the sample rate and the PCM bytes unchanged. */
  lemma WavRoundTrip(pcm: seq<byte>, sr: nat)
    requires Packable(pcm, sr)
    ensures ParseWav(WavFile(pcm, sr).value) == Some(WavInfo(sr, pcm))
  {
    WavFileLayout(pcm, sr);
  }

  /** Two packable inputs give the same file only if they are the same input. */
  lemma WavFileInjective(pcm1: seq<byte>, sr1: nat, pcm2: seq<byte>, sr2: nat)
    requires Packable(pcm1, sr1) && Packable(pcm2, sr2)
    requires WavFile(pcm1, sr1) == WavFile(pcm2, sr2)
    ensures pcm1 == pcm2 && sr1 == sr2
  {
    WavRoundTrip(pcm1, sr1);
    WavRoundTrip(pcm2, sr2);
  }

  /**
   * What the file holds when a field overflows: "RIFF" alone when the size
   * field is the one that does not fit, else up to and including "WAVEfmt ".
   */
  function WrittenBeforeFailure(pcm: seq<byte>): seq<byte> {
    if 36 + |pcm| >= U32Limit then Riff else Riff + LE32(36 + |pcm|) + WaveFmt
  }

  /**
   * `write_wav` itself: the pieces are written one after the other. A field
   * that does not fit makes `struct.pack` raise, so the file then holds only
   * what was written before that field, and `ok` is false.
   */
  method WriteWav(pcm: seq<byte>, sr: nat) returns (file: seq<byte>, ok: bool)
    ensures ok <==> Packable(pcm, sr)
    ensures ok ==> file == WavFile(pcm, sr).value
    ensures !ok ==> file == WrittenBeforeFailure(pcm)
  {
    file := Riff;
    if 36 + |pcm| >= U32Limit {
      return file, false;
    }
    file := file + LE32(36 + |pcm|);
    file := file + WaveFmt;
    if sr * 2 >= U32Limit {
      return file, false;
    }
    file := file + LE32(16) + LE16(1) + LE16(1) + LE32(sr) + LE32(sr * 2) + LE16(2) + LE16(16);
    file := file + Data;
    file := file + LE32(|pcm|);
    file := file + pcm;
    ok := true;
  }
}
