/**
 * The length-prefixed frame shared by the server and the client: a header of
 * the decimal payload length padded with `'\n'` to `HEADERSIZE` bytes,
 * followed by the payload, and the two verdict payloads the server sends.
 */
module Frame {
  import opened Wrappers
  import opened PyStr
  import opened Decimal

  /** `HEADERSIZE` in both the server and the client. */
  const HeaderSize: nat := 1024

  /** `b'\n' * k`; Python gives the empty string for `k <= 0`. */
  function Padding(k: int): (r: string)
    ensures |r| == (if k <= 0 then 0 else k)
    ensures AllSpace(r)
  {
    seq(if k <= 0 then 0 else k, _ => '\n')
  }

  /**
   * The server's response header: `str(n).encode()` followed by
   * `b'\n' * (HEADERSIZE - len(...))`.
   */
  function EncodeHeader(n: nat): (h: string)
    ensures |Digits(n)| <= HeaderSize ==> |h| == HeaderSize
    ensures |Digits(n)| > HeaderSize ==> |h| == |Digits(n)|
  {
    var d := Digits(n);
    d + Padding(HeaderSize - |d|)
  }

  /** Stripping a header leaves exactly the decimal digits of the length. */
  lemma HeaderStrips(n: nat)
    ensures Strip(EncodeHeader(n)) == Digits(n)
  {
    var d := Digits(n);
    DigitsUnpadded(n);
    StripPadded([], d, Padding(HeaderSize - |d|));
    assert [] + d + Padding(HeaderSize - |d|) == EncodeHeader(n);
    StripUnpadded(d);
  }

  /**
   * The decoder's view of a header: the receiver parses `int(header.strip())`
   * and gets back exactly the encoded length.
   */
  lemma HeaderRoundTrip(n: nat)
    ensures PyInt(Strip(EncodeHeader(n))) == Some(n)
  {
    HeaderStrips(n);
    PyIntDigits(n);
  }

  /** The header is exactly `HEADERSIZE` long until the length needs more than 1024 digits. */
  lemma HeaderWidth(n: nat)
    requires n < Pow10(HeaderSize)
    ensures |EncodeHeader(n)| == HeaderSize
  {
    DigitsLength(n, HeaderSize);
  }

  function Pow10(k: nat): (r: nat)
    ensures r >= 1
  {
    if k == 0 then 1 else 10 * Pow10(k - 1)
  }

  lemma {:induction false} Pow10Add(a: nat, b: nat)
    ensures Pow10(a + b) == Pow10(a) * Pow10(b)
    decreases a
  {
    if a > 0 {
      Pow10Add(a - 1, b);
    }
  }

  lemma {:induction false} DigitsLength(n: nat, k: nat)
    requires n < Pow10(k)
    ensures |Digits(n)| <= k || (n == 0 && k == 0)
    decreases n
  {
    if n >= 10 {
      assert k >= 1;
      DigitsLength(n / 10, k - 1);
    }
  }

  datatype Verdict = Exists | NotFound

  /** The payload that reports a verdict: `'STRING EXISTS\n'` or `'STRING NOT FOUND\n'`. */
  function VerdictText(v: Verdict): (t: string)
    ensures IsAscii(t)
    ensures |t| >= 1 && t[|t| - 1] == '\n'
  {
    match v
    case Exists => "STRING EXISTS\n"
    case NotFound => "STRING NOT FOUND\n"
  }

  /** Both verdicts are shorter than 100 characters. */
  lemma VerdictLength(v: Verdict)
    ensures |VerdictText(v)| < 100
  {
  }

  function VerdictOf(found: bool): (v: Verdict)
    ensures v == Exists <==> found
  {
    if found then Exists else NotFound
  }

  predicate IsAscii(s: string) {
    forall i :: 0 <= i < |s| ==> s[i] as int < 0x80
  }

  /** The number of bytes UTF-8 (RFC 3629, section 3) uses for one character. */
  function Utf8Width(c: char): nat
  {
    if c as int < 0x80 then 1 else if c as int < 0x800 then 2 else if c as int < 0x10000 then 3 else 4
  }

  /** `len(s.encode('UTF-8'))` */
  function Utf8Length(s: string): (r: nat)
    ensures r >= |s|
    ensures r == |s| <==> IsAscii(s)
  {
    if s == [] then 0 else Utf8Width(s[0]) + Utf8Length(s[1..])
  }

  /** `sys.maxsize` on a 64-bit build, the largest C `ssize_t`: 2^63 - 1. */
  const MaxSize: int := 0x7FFF_FFFF_FFFF_FFFF

  /** Every length up to `sys.maxsize` has at most 19 digits, so its header is `HEADERSIZE` long. */
  lemma MaxSizeDigits(n: nat)
    requires n <= MaxSize
    ensures |Digits(n)| <= 19 && |EncodeHeader(n)| == HeaderSize
  {
    assert Pow10(5) == 100_000;
    Pow10Add(5, 5);
    Pow10Add(10, 5);
    Pow10Add(15, 4);
    assert Pow10(4) == 10_000;
    DigitsLength(n, 19);
  }

  /** A size CPython can convert to a C `ssize_t`. */
  predicate FitsSsize(n: int) {
    -MaxSize - 1 <= n <= MaxSize
  }

  /** The characters a script still holds, in order: what a stream would deliver. */
  function Stream(chunks: seq<string>): string
  {
    if chunks == [] then [] else chunks[0] + Stream(chunks[1..])
  }

  /** A measure of what a script still holds: its characters and its chunks. */
  function Size(chunks: seq<string>): nat
  {
    if chunks == [] then 0 else |chunks[0]| + 1 + Size(chunks[1..])
  }

  /**
   * The script after a read of up to `n` characters from its first chunk:
   * what the read leaves of that chunk stays in front for the next read.
   */
  function Drop(chunks: seq<string>, n: nat): (rest: seq<string>)
    requires chunks != []
    ensures Take(chunks[0], n) + Stream(rest) == Stream(chunks)
    ensures n >= 1 ==> Size(rest) < Size(chunks)
    ensures |chunks[0]| <= n ==> rest == chunks[1..]
  {
    var c := chunks[0];
    if n < |c| then
      var rest := [c[n..]] + chunks[1..];
      assert rest[0] == c[n..] && rest[1..] == chunks[1..];
      assert c[..n] + (c[n..] + Stream(chunks[1..])) == c + Stream(chunks[1..]) by {
        assert c[..n] + c[n..] == c;
      }
      rest
    else chunks[1..]
  }

  /**
   * `recv(n)` on a script of received chunks: a size outside the C
   * `ssize_t` range raises `OverflowError` before anything else, Python
   * refuses a negative size with `ValueError`, a size of 0 returns `b''`
   * without reading, a closed peer (no chunk left) returns `b''`, and
   * otherwise up to `n` characters of the next chunk arrive, the rest of it
   * staying unread.
   */
  function Recv(chunks: seq<string>, n: int): (r: Result<(string, seq<string>)>)
    ensures r.Err? <==> n < 0 || n > MaxSize
    ensures r.Err? ==> r.error == (if FitsSsize(n) then ValueError("negative buffersize in recv")
                                   else OverflowError("Python int too large to convert to C ssize_t"))
    ensures r.Ok? ==> |r.value.0| <= n
    ensures r.Ok? ==> r.value.0 + Stream(r.value.1) == Stream(chunks)
    ensures r.Ok? ==> Size(r.value.1) <= Size(chunks)
    ensures r.Ok? && (n == 0 || chunks == []) ==> r.value == ([], chunks)
    ensures r.Ok? && n > 0 && chunks != [] ==> r.value == (Take(chunks[0], n), Drop(chunks, n))
  {
    if !FitsSsize(n) then Err(OverflowError("Python int too large to convert to C ssize_t"))
    else if n < 0 then Err(ValueError("negative buffersize in recv"))
    else if n == 0 || chunks == [] then Ok(([], chunks))
    else Ok((Take(chunks[0], n), Drop(chunks, n)))
  }
}
