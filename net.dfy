/** Network-facing values of the firmware: IPv4 addresses and their dotted
    text (IPAddress::toString), the request URLs built from the stored
    endpoint, and the 32-bit millisecond clock returned by millis(). */
module Net {
  import opened Text

  type Octet = x: int | 0 <= x < 256

  datatype IPv4 = IPv4(a: Octet, b: Octet, c: Octet, d: Octet)

  /** IPAddress::toString(): the four octets in decimal, separated by dots. */
  function IPv4ToString(ip: IPv4): (r: string)
    ensures |r| >= 7
    ensures forall i :: 0 <= i < |r| ==> IsDigit(r[i]) || r[i] == '.'
  {
    Dotted(NatToDecimal(ip.a), Dotted(NatToDecimal(ip.b), Dotted(NatToDecimal(ip.c), NatToDecimal(ip.d))))
  }

  function Dotted(head: string, tail: string): string
  {
    head + "." + tail
  }

  lemma NonDigitNotInDecimal(sep: char, n: nat)
    requires !IsDigit(sep)
    ensures sep !in NatToDecimal(n)
  {
  }

  /** Distinct addresses print differently, so the stored text names one gateway. */
  lemma IPv4ToStringInjective(x: IPv4, y: IPv4)
    requires IPv4ToString(x) == IPv4ToString(y)
    ensures x == y
  {
    NonDigitNotInDecimal('.', x.a); NonDigitNotInDecimal('.', y.a);
    NonDigitNotInDecimal('.', x.b); NonDigitNotInDecimal('.', y.b);
    NonDigitNotInDecimal('.', x.c); NonDigitNotInDecimal('.', y.c);
    var tx3 := Dotted(NatToDecimal(x.c), NatToDecimal(x.d));
    var ty3 := Dotted(NatToDecimal(y.c), NatToDecimal(y.d));
    var tx2 := Dotted(NatToDecimal(x.b), tx3);
    var ty2 := Dotted(NatToDecimal(y.b), ty3);
    SplitAtFirst('.', NatToDecimal(x.a), tx2, NatToDecimal(y.a), ty2);
    SplitAtFirst('.', NatToDecimal(x.b), tx3, NatToDecimal(y.b), ty3);
    SplitAtFirst('.', NatToDecimal(x.c), NatToDecimal(x.d), NatToDecimal(y.c), NatToDecimal(y.d));
    NatToDecimalInjective(x.a, y.a);
    NatToDecimalInjective(x.b, y.b);
    NatToDecimalInjective(x.c, y.c);
    NatToDecimalInjective(x.d, y.d);
  }

  /** "http://" + host + ":" + String(port) + path, as the firmware concatenates it. */
  function Url(host: string, port: int, path: string): string
  {
    "http://" + (host + ":" + (IntToDecimal(port) + path))
  }

  /** The layout of a URL: the scheme, the host, a ':', the decimal port, the path. */
  lemma UrlLayout(host: string, port: int, path: string)
    ensures var r := Url(host, port, path);
      |r| >= 7 + |host| + 2 + |path| &&
      r[..7] == "http://" &&
      r[7..7 + |host|] == host && r[7 + |host|] == ':' &&
      r[7 + |host| + 1..|r| - |path|] == IntToDecimal(port) &&
      r[|r| - |path|..] == path
  {
    var r := Url(host, port, path);
    assert r == "http://" + host + ":" + IntToDecimal(port) + path;
  }

  /** A URL built from a host that holds no ':' names exactly one host and port. */
  lemma UrlDeterminesEndpoint(h1: string, p1: int, h2: string, p2: int, path: string)
    requires ':' !in h1 && ':' !in h2
    requires Url(h1, p1, path) == Url(h2, p2, path)
    ensures h1 == h2 && p1 == p2
  {
    var t1 := IntToDecimal(p1) + path;
    var t2 := IntToDecimal(p2) + path;
    var w1 := h1 + ":" + t1;
    var w2 := h2 + ":" + t2;
    assert w1 == Url(h1, p1, path)[7..];
    assert w2 == Url(h2, p2, path)[7..];
    SplitAtFirst(':', h1, t1, h2, t2);
    assert IntToDecimal(p1) == t1[..|t1| - |path|];
    assert IntToDecimal(p2) == t2[..|t2| - |path|];
    IntToDecimalInjective(p1, p2);
  }

  lemma IPv4TextHasNoColon(ip: IPv4)
    ensures ':' !in IPv4ToString(ip)
  {
  }

  const TWO_32: int := 0x1_0000_0000

  /** An `unsigned long` of the ESP32 (32 bits), the type of millis(). */
  type U32 = x: int | 0 <= x < TWO_32

  /** `now - since` in unsigned 32-bit arithmetic: the difference modulo 2^32. */
  function ElapsedMs(now: U32, since: U32): (r: U32)
    ensures now >= since ==> r == now - since
    ensures now < since ==> r == now + TWO_32 - since
  {
    (now - since) % TWO_32
  }

  /** The unsigned difference measures the true elapsed time even when the
      clock wrapped around in between, as long as less than 2^32 ms passed. */
  lemma ElapsedAcrossWrap(since: U32, t: nat)
    requires t < TWO_32
    ensures ElapsedMs((since + t) % TWO_32, since) == t
  {
    if since + t >= TWO_32 {
      assert (since + t) % TWO_32 == since + t - TWO_32;
    }
  }
}
