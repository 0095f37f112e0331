/** The provisioning form parser of the ESP32 firmware: `url_decode_inplace`
    and `form_get_value` over `application/x-www-form-urlencoded` bodies
    (section 5 of the WHATWG URL Standard), together with the serializer the
    provisioning page uses to build such a body (`URLSearchParams`), which
    serves as the decoder's inverse.

    Strings are the bytes of a C string before its terminator. */
module UrlForm {
  import opened Common

  const Plus: byte := 0x2B     // '+'
  const Percent: byte := 0x25  // '%'
  const Space: byte := 0x20    // ' '
  const Amp: byte := 0x26      // '&'
  const Equals: byte := 0x3D   // '='
  const Minus: byte := 0x2D    // '-'

  predicate IsHexDigit(c: byte)
  {
    (0x30 <= c <= 0x39) || (0x41 <= c <= 0x46) || (0x61 <= c <= 0x66)
  }

  function HexValue(c: byte): (v: nat)
    requires IsHexDigit(c)
    ensures v < 16
  {
    if c <= 0x39 then c - 0x30 else if c <= 0x46 then c - 0x41 + 10 else c - 0x61 + 10
  }

  /** `isspace` in the C locale. */
  predicate IsCSpace(c: byte)
  {
    c == 0x20 || (0x09 <= c <= 0x0D)
  }

  /** `strtol(hex, &end, 16)` on the buffer `{x, y, 0}`, followed by the test
      `end == hex + 2` and the cast `(char)v`. `strtol` skips leading white
      space and takes an optional sign before the digits, so besides two hex
      digits it also accepts white space, `+` or `-` followed by one digit; a
      negative value wraps modulo 256 in the cast. `None` is the failed test. */
  function StrtolPair(x: byte, y: byte): Option<byte>
  {
    if !IsHexDigit(y) then None
    else if IsHexDigit(x) then Some(HexValue(x) * 16 + HexValue(y))
    else if IsCSpace(x) || x == Plus then Some(HexValue(y))
    else if x == Minus then Some((0x100 - HexValue(y)) % 0x100)
    else None
  }

  /** The first index at or after `from` that is not C white space. */
  function SkipSpace(s: seq<byte>, from: nat): (i: nat)
    requires from <= |s|
    ensures from <= i <= |s| && (i < |s| ==> !IsCSpace(s[i]))
    decreases |s| - from
  {
    if from == |s| || !IsCSpace(s[from]) then from else SkipSpace(s, from + 1)
  }

  /** The end of the run of hex digits starting at `from`. */
  function HexRun(s: seq<byte>, from: nat): (i: nat)
    requires from <= |s|
    ensures from <= i <= |s| && forall j :: from <= j < i ==> IsHexDigit(s[j])
    ensures i < |s| ==> !IsHexDigit(s[i])
    decreases |s| - from
  {
    if from == |s| || !IsHexDigit(s[from]) then from else HexRun(s, from + 1)
  }

  function HexNumber(d: seq<byte>): nat
    requires forall j :: 0 <= j < |d| ==> IsHexDigit(d[j])
  {
    if |d| == 0 then 0 else HexNumber(d[..|d| - 1]) * 16 + HexValue(d[|d| - 1])
  }

  /** `strtol(s, &end, 16)` on the C string `s` as section 7.22.1.4 of the C
      standard defines it: white space, an optional sign, an optional `0x`
      or `0X` prefix, then the longest run of hex digits; with no digits,
      `end` is `s` itself. Overflow is not modelled. Gives the value and
      `end - s`. */
  function Strtol16(s: seq<byte>): (r: (int, nat))
    ensures r.1 <= |s|
  {
    var i := SkipSpace(s, 0);
    var j := if i < |s| && (s[i] == Plus || s[i] == Minus) then i + 1 else i;
    var k := if j + 2 < |s| && s[j] == 0x30 && (s[j + 1] == 0x78 || s[j + 1] == 0x58) && IsHexDigit(s[j + 2])
             then j + 2 else j;
    var e := HexRun(s, k);
    if e == k then (0, 0)
    else
      assert forall d :: 0 <= d < e - k ==> IsHexDigit(s[k..e][d]);
      var v: int := HexNumber(s[k..e]);
      (if j > i && s[i] == Minus then -v else v, e)
  }

  lemma StrtolTwoDigits(x: byte, y: byte)
    requires IsHexDigit(x) && IsHexDigit(y)
    ensures Strtol16([x, y]).1 == 2
    ensures StrtolPair(x, y) == Some(Strtol16([x, y]).0 % 0x100)
  {
    var s := [x, y];
    assert HexRun(s, 0) == 2;
    assert s[0..2] == s && s[..1] == [x];
    assert HexNumber([x]) == HexValue(x) by { assert [x][..0] == []; }
    assert Strtol16(s).0 == HexValue(x) * 16 + HexValue(y);
  }

  lemma StrtolSignedDigit(x: byte, y: byte)
    requires (IsCSpace(x) || x == Plus || x == Minus) && IsHexDigit(y)
    ensures Strtol16([x, y]).1 == 2
    ensures StrtolPair(x, y) == Some(Strtol16([x, y]).0 % 0x100)
  {
    var s := [x, y];
    assert SkipSpace(s, 0) == (if IsCSpace(x) then 1 else 0);
    assert HexRun(s, 1) == 2;
    assert s[1..2] == [y];
    assert HexNumber([y]) == HexValue(y) by { assert [y][..0] == []; }
    assert Strtol16(s).0 == if x == Minus then 0 - HexValue(y) else HexValue(y);
  }

  lemma StrtolShort(x: byte, y: byte)
    requires x != 0 && y != 0
    requires !IsHexDigit(y) || !(IsHexDigit(x) || IsCSpace(x) || x == Plus || x == Minus)
    ensures Strtol16([x, y]).1 != 2
    ensures StrtolPair(x, y) == None
  {
    var s := [x, y];
    if IsHexDigit(x) {
      assert HexRun(s, 0) == 1;
    }
  }

  /** The decoder's test on the two bytes after `%` is exactly "`strtol`
      consumed both", and the byte written is its value cast to `char`. */
  lemma StrtolPairIsStrtol(x: byte, y: byte)
    requires x != 0 && y != 0
    ensures StrtolPair(x, y) == if Strtol16([x, y]).1 == 2 then Some(Strtol16([x, y]).0 % 0x100) else None
  {
    if IsHexDigit(y) && (IsHexDigit(x) || IsCSpace(x) || x == Plus || x == Minus) {
      if IsHexDigit(x) {
        StrtolTwoDigits(x, y);
      } else {
        StrtolSignedDigit(x, y);
      }
    } else {
      StrtolShort(x, y);
    }
  }

  /** Where the decoding loop ends: the whole input read, or the `strtol`
      test failed at the `%` that starts `rest`. */
  datatype Decoded = Done(out: seq<byte>) | Rejected(out: seq<byte>, rest: seq<byte>)

  /** The loop of `url_decode_inplace` from the unread input `s`, having
      written `acc` so far. Output never outruns input: each step reads at
      least as many bytes as it writes. */
  function DecodeRest(s: seq<byte>, acc: seq<byte>): Decoded
    decreases |s|
  {
    if |s| == 0 then Done(acc)
    else if s[0] == Plus then DecodeRest(s[1..], acc + [Space])
    else if s[0] == Percent && |s| >= 3 then
      match StrtolPair(s[1], s[2])
      case None => Rejected(acc, s)
      case Some(v) => DecodeRest(s[3..], acc + [v])
    else DecodeRest(s[1..], acc + [s[0]])
  }

  function UrlDecode(s: seq<byte>): Decoded
  {
    DecodeRest(s, [])
  }

  /** What the loop leaves behind: the output extends what was written and
      is never longer than the input read; a rejection stops at a `%` whose
      two following bytes fail the `strtol` test, and that part of the
      input is left unread. */
  lemma {:induction false} DecodeRestBounds(s: seq<byte>, acc: seq<byte>)
    ensures var r := DecodeRest(s, acc);
            && |acc| <= |r.out| && r.out[..|acc|] == acc
            && (r.Done? ==> |r.out| <= |acc| + |s|)
            && (r.Rejected? ==>
                  && 3 <= |r.rest| <= |s|
                  && r.rest == s[|s| - |r.rest|..]
                  && r.rest[0] == Percent && StrtolPair(r.rest[1], r.rest[2]).None?
                  && |r.out| <= |acc| + |s| - |r.rest|)
    decreases |s|
  {
    if |s| == 0 {
    } else if s[0] == Plus {
      DecodeRestBounds(s[1..], acc + [Space]);
    } else if s[0] == Percent && |s| >= 3 {
      match StrtolPair(s[1], s[2])
      case None =>
      case Some(v) =>
        DecodeRestBounds(s[3..], acc + [v]);
    } else {
      DecodeRestBounds(s[1..], acc + [s[0]]);
    }
  }

  /** What `url_decode_inplace` returns and leaves in its buffer (the bytes
      before the terminator). On failure no terminator is written, so the
      buffer holds the output so far followed by the input from that
      position on. */
  datatype InPlace = InPlace(ok: bool, buf: seq<byte>)

  function UrlDecodeInPlace(s: seq<byte>): (r: InPlace)
    ensures |r.buf| <= |s|
    ensures !r.ok ==> |r.buf| == |s|
  {
    DecodeRestBounds(s, []);
    match UrlDecode(s)
    case Done(out) => InPlace(true, out)
    case Rejected(out, _) => InPlace(false, out + s[|out|..])
  }

  /** One step of the decoding loop at position `src` of `s`, when it
      writes `out` and reads `step` bytes. */
  lemma DecodeAdvance(s: seq<byte>, src: nat, acc: seq<byte>, out: byte, step: nat)
    requires src < |s|
    requires s[src] == Plus ==> out == Space && step == 1
    requires s[src] == Percent && src + 2 < |s| && s[src] != Plus ==>
               StrtolPair(s[src + 1], s[src + 2]) == Some(out) && step == 3
    requires s[src] != Plus && !(s[src] == Percent && src + 2 < |s|) ==> out == s[src] && step == 1
    ensures src + step <= |s|
    ensures DecodeRest(s[src..], acc) == DecodeRest(s[src + step..], acc + [out])
  {
    assert s[src..][step..] == s[src + step..];
  }

  /** The in-place loop itself, reading from the buffer it writes to:
      `dst` never passes `src`, so every byte still to be read is the
      original one. */
  method UrlDecodeBuffer(s: seq<byte>) returns (ok: bool, buf: seq<byte>)
    requires IsCString(s)
    ensures InPlace(ok, buf) == UrlDecodeInPlace(s)
  {
    buf := s;
    var src, dst := 0, 0;
    ghost var acc: seq<byte> := [];
    // `src < |buf|` is `*src != 0`: the byte at `src` is an original one.
    while src < |buf|
      invariant dst <= src <= |s| == |buf| && |acc| == dst
      invariant forall i :: 0 <= i < dst ==> buf[i] == acc[i]
      invariant forall i :: dst <= i < |s| ==> buf[i] == s[i]
      invariant DecodeRest(s[src..], acc) == UrlDecode(s)
      decreases |s| - src
    {
      var c := buf[src];
      var out: byte, step: nat;
      if c == Plus {
        out, step := Space, 1;
      } else if c == Percent && src + 1 < |buf| && src + 2 < |buf| {
        var hex := StrtolPair(buf[src + 1], buf[src + 2]);
        if hex.None? {
          assert buf == acc + s[dst..];
          return false, buf;
        }
        out, step := hex.value, 3;
      } else {
        out, step := c, 1;
      }
      DecodeAdvance(s, src, acc, out, step);
      buf := buf[dst := out];
      acc := acc + [out];
      dst, src := dst + 1, src + step;
    }
    assert buf[..dst] == acc;
    ok, buf := true, buf[..dst];
  }

  /* ---------- The inverse: the provisioning page's form serializer ---------- */

  /** Bytes the `application/x-www-form-urlencoded` serializer of the WHATWG
      URL Standard (section 5.2) leaves as they are: ASCII alphanumerics and
      `*`, `-`, `.`, `_`. */
  predicate IsFormSafe(b: byte)
  {
    (0x30 <= b <= 0x39) || (0x41 <= b <= 0x5A) || (0x61 <= b <= 0x7A)
    || b == 0x2A || b == 0x2D || b == 0x2E || b == 0x5F
  }

  function UpperHex(n: nat): (c: byte)
    requires n < 16
    ensures IsHexDigit(c) && HexValue(c) == n
  {
    if n < 10 then 0x30 + n else 0x41 + n - 10
  }

  function EncodeByte(b: byte): (r: seq<byte>)
  {
    if b == Space then [Plus]
    else if IsFormSafe(b) then [b]
    else [Percent, UpperHex(b / 16), UpperHex(b % 16)]
  }

  predicate Excludes(s: seq<byte>, c: byte)
  {
    forall i :: 0 <= i < |s| ==> s[i] != c
  }

  /** The serializer applied to one name or value, as `URLSearchParams`
      does on the provisioning page: space becomes `+`, safe bytes stay, every
      other byte becomes `%` and two upper-case hex digits. The result never
      contains the separators `&` and `=`, nor a NUL. */
  function FormEncode(x: seq<byte>): (r: seq<byte>)
    ensures |x| <= |r| <= 3 * |x|
    ensures Excludes(r, Amp) && Excludes(r, Equals) && IsCString(r)
  {
    if |x| == 0 then [] else EncodeByte(x[0]) + FormEncode(x[1..])
  }

  lemma HexPairValue(b: byte)
    ensures StrtolPair(UpperHex(b / 16), UpperHex(b % 16)) == Some(b)
  {
  }

  /** Decoding one serialized byte writes that byte. */
  lemma DecodeEncodeByte(b: byte, rest: seq<byte>, acc: seq<byte>)
    ensures DecodeRest(EncodeByte(b) + rest, acc) == DecodeRest(rest, acc + [b])
  {
    var e := EncodeByte(b);
    assert (e + rest)[|e|..] == rest;
    if b != Space && !IsFormSafe(b) {
      HexPairValue(b);
      assert (e + rest)[1] == UpperHex(b / 16) && (e + rest)[2] == UpperHex(b % 16);
    }
  }

  /** Decoding undoes the serializer, from any output already written. */
  lemma {:induction false} DecodeFormEncode(x: seq<byte>, acc: seq<byte>)
    ensures DecodeRest(FormEncode(x), acc) == Done(acc + x)
    decreases |x|
  {
    if |x| > 0 {
      DecodeEncodeByte(x[0], FormEncode(x[1..]), acc);
      DecodeFormEncode(x[1..], acc + [x[0]]);
      assert acc + [x[0]] + x[1..] == acc + x;
    }
  }

  /** `url_decode_inplace` succeeds on every serialized string and restores
      the original bytes. */
  lemma FormRoundTrip(x: seq<byte>)
    ensures UrlDecodeInPlace(FormEncode(x)) == InPlace(true, x)
  {
    DecodeFormEncode(x, []);
  }

  /** Serializing a concatenation serializes the parts. */
  lemma {:induction false} FormEncodeAppend(a: seq<byte>, b: seq<byte>)
    ensures FormEncode(a + b) == FormEncode(a) + FormEncode(b)
    decreases |a|
  {
    if |a| > 0 {
      assert (a + b)[0] == a[0] && (a + b)[1..] == a[1..] + b;
      FormEncodeAppend(a[1..], b);
      calc {
        FormEncode(a + b);
        EncodeByte(a[0]) + FormEncode(a[1..] + b);
        EncodeByte(a[0]) + (FormEncode(a[1..]) + FormEncode(b));
        (EncodeByte(a[0]) + FormEncode(a[1..])) + FormEncode(b);
      }
    } else {
      assert a + b == b;
    }
  }

  /** Bytes that are neither `+` nor `%` are copied one for one. */
  lemma {:induction false} DecodePlainPrefix(a: seq<byte>, b: seq<byte>, acc: seq<byte>)
    requires Excludes(a, Plus) && Excludes(a, Percent)
    ensures DecodeRest(a + b, acc) == DecodeRest(b, acc + a)
    decreases |a|
  {
    if |a| > 0 {
      assert (a + b)[0] == a[0] && (a + b)[1..] == a[1..] + b;
      DecodePlainPrefix(a[1..], b, acc + [a[0]]);
      assert acc + [a[0]] + a[1..] == acc + a;
    } else {
      assert a + b == b && acc + a == acc;
    }
  }

  /* ---------- form_get_value ---------- */

  /** The first index at or after `from` holding `c`, or `|s|`. */
  function Find(s: seq<byte>, c: byte, from: nat): (i: nat)
    requires from <= |s|
    ensures from <= i <= |s|
    ensures i < |s| ==> s[i] == c
    ensures forall j :: from <= j < i ==> s[j] != c
    decreases |s| - from
  {
    if from == |s| || s[from] == c then from else Find(s, c, from + 1)
  }

  /** The `&`-separated segments of a body, empty ones included. */
  function Segments(s: seq<byte>): (r: seq<seq<byte>>)
    ensures |r| >= 1
    decreases |s|
  {
    var i := Find(s, Amp, 0);
    if i == |s| then [s] else [s[..i]] + Segments(s[i + 1..])
  }

  function Join(segs: seq<seq<byte>>): seq<byte>
    requires |segs| >= 1
  {
    if |segs| == 1 then segs[0] else segs[0] + [Amp] + Join(segs[1..])
  }

  /** Splitting at `&` loses nothing. */
  lemma {:induction false} JoinSegments(s: seq<byte>)
    ensures Join(Segments(s)) == s
    decreases |s|
  {
    var i := Find(s, Amp, 0);
    if i < |s| {
      JoinSegments(s[i + 1..]);
      assert s == s[..i] + [Amp] + s[i + 1..];
    }
  }

  /** Joining segments free of `&` and splitting again gives them back. */
  lemma {:induction false} SegmentsJoin(segs: seq<seq<byte>>)
    requires |segs| >= 1
    requires forall i :: 0 <= i < |segs| ==> Excludes(segs[i], Amp)
    ensures Segments(Join(segs)) == segs
    decreases |segs|
  {
    var s := Join(segs);
    if |segs| == 1 {
      assert Find(s, Amp, 0) == |s|;
    } else {
      var k := |segs[0]|;
      assert s == segs[0] + [Amp] + Join(segs[1..]);
      assert s[k] == Amp;
      assert Find(s, Amp, 0) == k;
      assert s[..k] == segs[0];
      assert s[k + 1..] == Join(segs[1..]);
      SegmentsJoin(segs[1..]);
      assert segs == [segs[0]] + segs[1..];
    }
  }

  /** The value of one `key=value` segment when its key is exactly `key`;
      a segment without `=` names no key. */
  function PairValue(seg: seq<byte>, key: seq<byte>): Option<seq<byte>>
  {
    var e := Find(seg, Equals, 0);
    if e < |seg| && seg[..e] == key then Some(seg[e + 1..]) else None
  }

  function FirstValue(segs: seq<seq<byte>>, key: seq<byte>): Option<seq<byte>>
  {
    if |segs| == 0 then None
    else if PairValue(segs[0], key).Some? then PairValue(segs[0], key)
    else FirstValue(segs[1..], key)
  }

  /** The raw value of the first segment of `body` whose key is `key`. */
  function Lookup(body: seq<byte>, key: seq<byte>): Option<seq<byte>>
  {
    FirstValue(Segments(body), key)
  }

  /** The first segment decides when it names `key`; otherwise, with or
      without an `=`, it is skipped. */
  lemma LookupCons(seg: seq<byte>, rest: seq<byte>, key: seq<byte>)
    requires Excludes(seg, Amp)
    ensures Lookup(seg + [Amp] + rest, key)
            == if PairValue(seg, key).Some? then PairValue(seg, key) else Lookup(rest, key)
  {
    var s := seg + [Amp] + rest;
    assert s[|seg|] == Amp;
    assert Find(s, Amp, 0) == |seg|;
    assert s[..|seg|] == seg && s[|seg| + 1..] == rest;
  }

  function Truncate(v: seq<byte>, n: nat): (r: seq<byte>)
    ensures |r| <= n && |r| <= |v| && r == v[..|r|]
    ensures |v| <= n ==> r == v
  {
    if |v| <= n then v else v[..n]
  }

  /** What `form_get_value` returns and, through `out`, the bytes left in
      the output buffer; `None` is a buffer it did not write. */
  datatype FormResult = FormResult(found: bool, out: Option<seq<byte>>)

  /** `form_get_value(body, key, out, outLen)`: the raw value of the first
      matching pair, cut to `outLen - 1` bytes, then decoded in place (its
      failure ignored). The body is received as raw bytes, but the loop
      reads it as a C string: nothing after its first NUL is seen. */
  function FormGetValue(body: seq<byte>, key: seq<byte>, outLen: nat): (r: FormResult)
    ensures r.found <==> outLen > 0 && Lookup(CString(body), key).Some?
    ensures r.out.None? <==> outLen == 0
    ensures outLen > 0 && !r.found ==> r.out == Some([])
    ensures r.found ==> |r.out.value| < outLen
  {
    if outLen == 0 then FormResult(false, None)
    else match Lookup(CString(body), key)
      case None => FormResult(false, Some([]))
      case Some(v) => FormResult(true, Some(UrlDecodeInPlace(Truncate(v, outLen - 1)).buf))
  }

  /** `strchr(s + from, c)` for `c != 0`, in a buffer whose C string ends at
      its first NUL or at its end. */
  function StrChr(s: seq<byte>, c: byte, from: nat): Option<nat>
    requires c != 0 && from <= |s|
    decreases |s| - from
  {
    if from == |s| || s[from] == 0 then None
    else if s[from] == c then Some(from)
    else StrChr(s, c, from + 1)
  }

  /** The C string that starts at `from`. */
  function CStr(s: seq<byte>, from: nat): seq<byte>
    requires from <= |s|
    decreases |s| - from
  {
    if from == |s| || s[from] == 0 then [] else [s[from]] + CStr(s, from + 1)
  }

  /** Between `from` and a terminator at `lim`, `s` agrees with the NUL-free
      `t`: `strchr` there finds what `Find` finds in `t` before `lim`. */
  lemma {:induction false} StrChrUpTo(s: seq<byte>, t: seq<byte>, c: byte, from: nat, lim: nat)
    requires c != 0 && from <= lim <= |s| == |t|
    requires forall j :: from <= j < lim ==> s[j] == t[j] && s[j] != 0
    requires lim < |s| ==> s[lim] == 0
    ensures StrChr(s, c, from) == if Find(t, c, from) < lim then Some(Find(t, c, from)) else None
    decreases lim - from
  {
    if from < lim && s[from] != c {
      StrChrUpTo(s, t, c, from + 1, lim);
    }
  }

  /** Likewise the C string at `from` is `t[from..lim]`. */
  lemma {:induction false} CStrUpTo(s: seq<byte>, t: seq<byte>, from: nat, lim: nat)
    requires from <= lim <= |s| == |t|
    requires forall j :: from <= j < lim ==> s[j] == t[j] && s[j] != 0
    requires lim < |s| ==> s[lim] == 0
    ensures CStr(s, from) == t[from..lim]
    decreases lim - from
  {
    if from < lim {
      CStrUpTo(s, t, from + 1, lim);
      assert t[from..lim] == [t[from]] + t[from + 1..lim];
    }
  }

  /** `Find` in a slice is `Find` in the whole, cut off at the slice's end. */
  lemma {:induction false} FindSlice(s: seq<byte>, c: byte, a: nat, b: nat, from: nat)
    requires a <= from <= b <= |s|
    ensures Find(s[a..b], c, from - a) + a == if Find(s, c, from) < b then Find(s, c, from) else b
    decreases b - from
  {
    if from < b && s[from] != c {
      FindSlice(s, c, a, b, from + 1);
    }
  }

  /** The segments from `p` on: the one up to the next `&`, then the rest. */
  lemma SegmentsFrom(body: seq<byte>, p: nat)
    requires p <= |body|
    ensures var end := Find(body, Amp, p);
            Segments(body[p..]) == [body[p..end]] + (if end < |body| then Segments(body[end + 1..]) else [])
  {
    var end := Find(body, Amp, p);
    FindSlice(body, Amp, p, |body|, p);
    assert body[p..|body|] == body[p..];
    assert Find(body[p..], Amp, 0) == end - p;
    if end < |body| {
      assert body[p..][..end - p] == body[p..end];
      assert body[p..][end - p + 1..] == body[end + 1..];
    } else {
      assert body[p..] == body[p..end];
    }
  }

  /** The key/value split of the segment `body[p..end]`, in `body`'s indices. */
  lemma PairValueInBody(body: seq<byte>, p: nat, end: nat, key: seq<byte>)
    requires p <= end <= |body|
    ensures var e := Find(body, Equals, p);
            PairValue(body[p..end], key)
            == if e < end && body[p..e] == key then Some(body[e + 1..end]) else None
  {
    var e := Find(body, Equals, p);
    FindSlice(body, Equals, p, end, p);
    if e < end {
      assert body[p..end][..e - p] == body[p..e];
      assert body[p..end][e - p + 1..] == body[e + 1..end];
    }
  }

  /** What the segment starting at `p` contributes to the lookup. */
  lemma LookupFrom(body: seq<byte>, key: seq<byte>, p: nat)
    requires p <= |body|
    ensures var end := Find(body, Amp, p);
            Lookup(body[p..], key)
            == if PairValue(body[p..end], key).Some? then PairValue(body[p..end], key)
               else if end < |body| then Lookup(body[end + 1..], key)
               else None
  {
    var end := Find(body, Amp, p);
    SegmentsFrom(body, p);
    var tail: seq<seq<byte>> := if end < |body| then Segments(body[end + 1..]) else [];
    FirstValueCons(body[p..end], tail, key);
  }

  lemma FirstValueCons(seg: seq<byte>, tail: seq<seq<byte>>, key: seq<byte>)
    ensures FirstValue([seg] + tail, key)
            == if PairValue(seg, key).Some? then PairValue(seg, key) else FirstValue(tail, key)
  {
    assert ([seg] + tail)[1..] == tail;
  }

  lemma LookupEmpty(key: seq<byte>)
    ensures Lookup([], key) == None
  {
    var empty: seq<byte> := [];
    var segs: seq<seq<byte>> := [empty];
    assert Find(empty, Amp, 0) == 0;
    assert Segments(empty) == segs;
    assert PairValue(empty, key) == None;
    assert |segs[1..]| == 0;
    assert FirstValue(segs[1..], key) == None;
    assert Lookup(empty, key) == FirstValue(segs, key);
  }

  /** The inner part of one pass over a segment already cut at `end`: cut
      at the `=`, read the key and the value, and put the `=` back. */
  method SplitPair(cut: seq<byte>, body: seq<byte>, key: seq<byte>, p: nat, end: nat)
    returns (value: Option<seq<byte>>, cutAfter: seq<byte>)
    requires p <= end <= |cut| == |body|
    requires forall j :: p <= j < end ==> cut[j] == body[j] && body[j] != 0
    requires end < |cut| ==> cut[end] == 0
    ensures cutAfter == cut
    ensures value == PairValue(body[p..end], key)
    ensures value.Some? ==> IsCString(value.value)
  {
    PairValueInBody(body, p, end, key);
    StrChrUpTo(cut, body, Equals, p, end);
    var eq := StrChr(cut, Equals, p);
    value, cutAfter := None, cut;
    if eq.Some? {
      var e := eq.value;
      cutAfter := cutAfter[e := 0];
      CStrUpTo(cutAfter, body, p, e);
      CStrUpTo(cutAfter, body, e + 1, end);
      var k := CStr(cutAfter, p);
      if k == key {
        value := Some(CStr(cutAfter, e + 1));
      }
      cutAfter := cutAfter[e := Equals];
      assert cutAfter == cut;
    }
  }

  /** One pass of the loop of `form_get_value` over the segment at `p` of
      the C string in `buf`: cut at the next `&`, split the pair, and put
      the `&` back. */
  method ScanSegment(buf: seq<byte>, key: seq<byte>, p: nat)
    returns (value: Option<seq<byte>>, amp: Option<nat>, bufAfter: seq<byte>)
    requires p < |CString(buf)|
    ensures bufAfter == buf
    ensures var c := CString(buf);
            var end := Find(c, Amp, p);
            && amp == (if end < |c| then Some(end) else None)
            && value == PairValue(c[p..end], key)
    ensures value.Some? ==> IsCString(value.value)
  {
    var c := CString(buf);
    var n := |c|;
    StrChrUpTo(buf, buf, Amp, p, n);
    FindSlice(buf, Amp, 0, n, p);
    assert buf[0..n] == c;
    amp := StrChr(buf, Amp, p);
    var end := if amp.Some? then amp.value else n;
    assert end == Find(c, Amp, p);
    assert buf[p..end] == c[p..end];
    bufAfter := buf;
    if amp.Some? {
      bufAfter := bufAfter[amp.value := 0];
    }
    value, bufAfter := SplitPair(bufAfter, buf, key, p, end);
    if amp.Some? {
      bufAfter := bufAfter[amp.value := Amp];
    }
    assert bufAfter == buf;
  }

  /** The loop of `form_get_value`: the raw value of the first pair whose
      key is `key`, found by cutting the body it reads and mending it again. */
  method ScanBody(body: seq<byte>, key: seq<byte>) returns (value: Option<seq<byte>>, bodyAfter: seq<byte>)
    ensures bodyAfter == body
    ensures value == Lookup(CString(body), key)
    ensures value.Some? ==> IsCString(value.value)
  {
    ghost var c := CString(body);
    bodyAfter := body;
    var p := 0;
    assert c[p..] == c;
    // `p < |bodyAfter| && bodyAfter[p] != 0` is `*p`.
    while p < |bodyAfter| && bodyAfter[p] != 0
      invariant p <= |c| && bodyAfter == body
      invariant Lookup(c[p..], key) == Lookup(c, key)
      decreases |c| - p
    {
      ghost var end := Find(c, Amp, p);
      LookupFrom(c, key, p);
      var amp;
      value, amp, bodyAfter := ScanSegment(bodyAfter, key, p);
      if value.Some? {
        return;
      }
      if amp.None? {
        break;
      }
      assert amp.value == end;
      p := amp.value + 1;
    }
    if p == |c| {
      assert c[p..] == [];
      LookupEmpty(key);
    }
    value := None;
  }

  /** The firmware's `form_get_value` over the body it writes to; the body
      is the same afterwards on every path. The matching value is decoded
      after the cut bytes are put back, which `out` cannot observe. */
  method FormGetValueInPlace(body: seq<byte>, key: seq<byte>, outLen: nat)
    returns (found: bool, out: Option<seq<byte>>, bodyAfter: seq<byte>)
    requires IsCString(key)
    ensures bodyAfter == body
    ensures FormResult(found, out) == FormGetValue(body, key, outLen)
  {
    if outLen == 0 {
      return false, None, body;
    }
    var value;
    value, bodyAfter := ScanBody(body, key);
    if value.None? {
      return false, Some([]), bodyAfter;
    }
    var copy := Truncate(value.value, outLen - 1);
    assert IsCString(copy);
    var _, decoded := UrlDecodeBuffer(copy);
    return true, Some(decoded), bodyAfter;
  }

  /** A raw NUL in a received body ends what the loop reads: in
      `x=`, NUL, `&ssid=b` the pair after the NUL is never seen, although
      it is there in the bytes. */
  lemma RawNulEndsBody()
    ensures var body: seq<byte> := [0x78, Equals, 0, Amp] + SsidKey + [Equals, 0x62];
            && Lookup(body, SsidKey) == Some([0x62])
            && FormGetValue(body, SsidKey, 33) == FormResult(false, Some([]))
  {
    var body: seq<byte> := [0x78, Equals, 0, Amp] + SsidKey + [Equals, 0x62];
    var seg: seq<byte> := [0x78, Equals, 0];
    var tail: seq<byte> := SsidKey + [Equals, 0x62];
    assert body == seg + [Amp] + tail;
    LookupCons(seg, tail, SsidKey);
    assert PairValue(seg, SsidKey) == None by {
      assert Find(seg, Equals, 0) == 1;
    }
    PairValueOf(SsidKey, [0x62], SsidKey);
    assert tail == SsidKey + [Equals] + [0x62];
    var one: seq<seq<byte>> := [tail];
    SegmentsJoin(one);
    assert |one[1..]| == 0;
    assert Lookup(tail, SsidKey) == Some([0x62]);
    var c := CString(body);
    assert body[2] == 0 && body[0] != 0 && body[1] != 0;
    assert c == [0x78, Equals];
    assert Lookup(c, SsidKey) == None by {
      var seg0: seq<seq<byte>> := [c];
      assert Find(c, Amp, 0) == 2;
      assert Segments(c) == seg0;
      assert Find(c, Equals, 0) == 1;
      assert PairValue(c, SsidKey) == None;
      assert |seg0[1..]| == 0;
      assert FirstValue(seg0[1..], SsidKey) == None;
      assert Lookup(c, SsidKey) == FirstValue(seg0, SsidKey);
    }
  }

  /* ---------- Provisioning: the page's body read back by the firmware ---------- */

  /** `"ssid"` and `"pass"`, the two fields of the provisioning form; both
      are left unchanged by the serializer. */
  const SsidKey: seq<byte> := [0x73, 0x73, 0x69, 0x64]
  const PassKey: seq<byte> := [0x70, 0x61, 0x73, 0x73]
  /** `sizeof(ssid)` and `sizeof(pass)` in the save handler. */
  const SsidBufLen: nat := 33
  const PassBufLen: nat := 65

  /** The body the provisioning page posts:
      `new URLSearchParams({ssid, pass}).toString()`. */
  function SaveBody(ssid: seq<byte>, pass: seq<byte>): seq<byte>
  {
    Join([SsidKey + [Equals] + FormEncode(ssid), PassKey + [Equals] + FormEncode(pass)])
  }

  /** A page-built body holds no NUL, so the loop reads all of it. */
  lemma SaveBodyWhole(ssid: seq<byte>, pass: seq<byte>)
    ensures IsCString(SaveBody(ssid, pass))
    ensures CString(SaveBody(ssid, pass)) == SaveBody(ssid, pass)
  {
    var a := SsidKey + [Equals] + FormEncode(ssid);
    var b := PassKey + [Equals] + FormEncode(pass);
    var body := SaveBody(ssid, pass);
    var rest: seq<seq<byte>> := [b];
    assert [a, b][1..] == rest && Join(rest) == b;
    assert body == a + [Amp] + b;
    assert IsCString(a) && IsCString(b);
    CStringWhole(body);
  }

  lemma PairValueOf(k: seq<byte>, v: seq<byte>, key: seq<byte>)
    requires Excludes(k, Equals)
    ensures PairValue(k + [Equals] + v, key) == if k == key then Some(v) else None
  {
    var seg := k + [Equals] + v;
    assert seg[|k|] == Equals;
    assert Find(seg, Equals, 0) == |k|;
    assert seg[..|k|] == k && seg[|k| + 1..] == v;
  }

  /** A two-field body answers for each of its keys, the first one first. */
  lemma LookupTwoFields(k1: seq<byte>, v1: seq<byte>, k2: seq<byte>, v2: seq<byte>, key: seq<byte>)
    requires Excludes(k1, Equals) && Excludes(k2, Equals)
    requires Excludes(k1, Amp) && Excludes(k2, Amp) && Excludes(v1, Amp) && Excludes(v2, Amp)
    ensures Lookup(Join([k1 + [Equals] + v1, k2 + [Equals] + v2]), key)
            == if k1 == key then Some(v1) else if k2 == key then Some(v2) else None
  {
    var segs := [k1 + [Equals] + v1, k2 + [Equals] + v2];
    assert Excludes(segs[0], Amp) && Excludes(segs[1], Amp);
    SegmentsJoin(segs);
    PairValueOf(k1, v1, key);
    PairValueOf(k2, v2, key);
    var last: seq<seq<byte>> := [segs[1]];
    assert segs[1..] == last && |last[1..]| == 0;
    assert FirstValue(last, key) == PairValue(segs[1], key);
  }

  /** Both fields of a page-built body are found, with their serialized
      values. */
  lemma LookupSaveBody(ssid: seq<byte>, pass: seq<byte>)
    ensures Lookup(SaveBody(ssid, pass), SsidKey) == Some(FormEncode(ssid))
    ensures Lookup(SaveBody(ssid, pass), PassKey) == Some(FormEncode(pass))
  {
    assert SsidKey != PassKey by { assert SsidKey[0] != PassKey[0]; }
    LookupTwoFields(SsidKey, FormEncode(ssid), PassKey, FormEncode(pass), SsidKey);
    LookupTwoFields(SsidKey, FormEncode(ssid), PassKey, FormEncode(pass), PassKey);
  }

  /** As long as the serialized value fits the output buffer, the buffer
      holds exactly the bytes typed into the page. The save handler then
      reads it as a C string, so what it uses is the typed text up to its
      first NUL: all of it when the text holds none. */
  lemma ProvisioningRoundTrip(ssid: seq<byte>, pass: seq<byte>)
    ensures |FormEncode(ssid)| < SsidBufLen ==>
              FormGetValue(SaveBody(ssid, pass), SsidKey, SsidBufLen) == FormResult(true, Some(ssid))
    ensures |FormEncode(pass)| < PassBufLen ==>
              FormGetValue(SaveBody(ssid, pass), PassKey, PassBufLen) == FormResult(true, Some(pass))
    ensures |FormEncode(ssid)| < SsidBufLen ==>
              (CString(FormGetValue(SaveBody(ssid, pass), SsidKey, SsidBufLen).out.value) == ssid
               <==> IsCString(ssid))
    ensures |FormEncode(pass)| < PassBufLen ==>
              (CString(FormGetValue(SaveBody(ssid, pass), PassKey, PassBufLen).out.value) == pass
               <==> IsCString(pass))
  {
    LookupSaveBody(ssid, pass);
    SaveBodyWhole(ssid, pass);
    FormRoundTrip(ssid);
    FormRoundTrip(pass);
    CStringWhole(ssid);
    CStringWhole(pass);
  }

  /** A passphrase typed as `a`, NUL, `b` serializes as `a%00b`, arrives
      whole in the buffer, and is used as the one-letter passphrase `a`. */
  lemma EmbeddedNulCutsPassphrase()
    ensures var body := SaveBody([0x61], [0x61, 0, 0x62]);
            && FormGetValue(body, PassKey, PassBufLen) == FormResult(true, Some([0x61, 0, 0x62]))
            && CString(FormGetValue(body, PassKey, PassBufLen).out.value) == [0x61]
  {
    var pass: seq<byte> := [0x61, 0, 0x62];
    ProvisioningRoundTrip([0x61], pass);
    assert |FormEncode(pass)| <= 9;
    var t := CString(pass);
    assert pass[1] == 0;
    assert t[0] == 0x61;
  }

  /** Safe bytes serialize to themselves. */
  lemma {:induction false} FormEncodeSafe(x: seq<byte>)
    requires forall i :: 0 <= i < |x| ==> IsFormSafe(x[i])
    ensures FormEncode(x) == x
    decreases |x|
  {
    if |x| > 0 {
      FormEncodeSafe(x[1..]);
      assert [x[0]] + x[1..] == x;
    }
  }

  /** The raw value is cut to `outLen - 1` bytes before it is decoded, so a
      legal 32-byte SSID whose serialized form is longer comes back wrong:
      31 `a` and a `!` serialize to 34 bytes, are cut to the 31 `a` and a
      lone `%`, and are read back as that. */
  lemma TruncatedBeforeDecoding(pass: seq<byte>)
    ensures var ssid := Fill(31, 0x61) + [0x21];
            && |ssid| == SsidBufLen - 1
            && FormGetValue(SaveBody(ssid, pass), SsidKey, SsidBufLen)
               == FormResult(true, Some(Fill(31, 0x61) + [Percent]))
  {
    var a := Fill(31, 0x61);
    var ssid := a + [0x21];
    var enc := a + [Percent, 0x32, 0x31];
    SafeThenBang(a);
    LookupSaveBody(ssid, pass);
    SaveBodyWhole(ssid, pass);
    assert Truncate(enc, SsidBufLen - 1) == a + [Percent];
    PlainThenPercent(a);
  }

  lemma SafeThenBang(a: seq<byte>)
    requires forall i :: 0 <= i < |a| ==> IsFormSafe(a[i])
    ensures FormEncode(a + [0x21]) == a + [Percent, 0x32, 0x31]
  {
    FormEncodeAppend(a, [0x21]);
    FormEncodeSafe(a);
    EncodeBang();
  }

  lemma EncodeBang()
    ensures FormEncode([0x21]) == [Percent, 0x32, 0x31]
  {
    var bang: seq<byte> := [0x21];
    assert EncodeByte(0x21) == [Percent, 0x32, 0x31];
    assert |bang[1..]| == 0;
  }

  lemma PlainThenPercent(a: seq<byte>)
    requires Excludes(a, Plus) && Excludes(a, Percent)
    ensures UrlDecodeInPlace(a + [Percent]) == InPlace(true, a + [Percent])
  {
    DecodePlainPrefix(a, [Percent], []);
    assert [] + a == a;
  }

  /** `form_get_value` with the value decoded before it is cut to fit:
      the correction of `TruncatedBeforeDecoding`. */
  function FormGetValueDecodeFirst(body: seq<byte>, key: seq<byte>, outLen: nat): (r: FormResult)
    ensures r.found <==> outLen > 0 && Lookup(CString(body), key).Some?
    ensures r.out.None? <==> outLen == 0
    ensures outLen > 0 && !r.found ==> r.out == Some([])
    ensures r.found ==> |r.out.value| < outLen
  {
    if outLen == 0 then FormResult(false, None)
    else match Lookup(CString(body), key)
      case None => FormResult(false, Some([]))
      case Some(v) => FormResult(true, Some(Truncate(UrlDecodeInPlace(v).buf, outLen - 1)))
  }

  /** Decoding first, every SSID and passphrase that fits its buffer comes
      back exactly into the buffer, and so is used whole exactly when it
      holds no NUL; on values that fit raw the two readings agree. */
  lemma DecodeFirstRoundTrip(ssid: seq<byte>, pass: seq<byte>, body: seq<byte>, key: seq<byte>, outLen: nat)
    ensures |ssid| < SsidBufLen ==>
              FormGetValueDecodeFirst(SaveBody(ssid, pass), SsidKey, SsidBufLen) == FormResult(true, Some(ssid))
    ensures |pass| < PassBufLen ==>
              FormGetValueDecodeFirst(SaveBody(ssid, pass), PassKey, PassBufLen) == FormResult(true, Some(pass))
    ensures |ssid| < SsidBufLen ==>
              (CString(FormGetValueDecodeFirst(SaveBody(ssid, pass), SsidKey, SsidBufLen).out.value) == ssid
               <==> IsCString(ssid))
    ensures |pass| < PassBufLen ==>
              (CString(FormGetValueDecodeFirst(SaveBody(ssid, pass), PassKey, PassBufLen).out.value) == pass
               <==> IsCString(pass))
    ensures (Lookup(CString(body), key).Some? ==> |Lookup(CString(body), key).value| < outLen) ==>
              FormGetValueDecodeFirst(body, key, outLen) == FormGetValue(body, key, outLen)
  {
    LookupSaveBody(ssid, pass);
    SaveBodyWhole(ssid, pass);
    FormRoundTrip(ssid);
    FormRoundTrip(pass);
    CStringWhole(ssid);
    CStringWhole(pass);
  }
}
