/** Shared vocabulary of the model: fixed-width unsigned integers as the C and
    Kotlin code uses them, and an optional value. */
module Common {

  /** An octet, as `uint8_t` in the firmware and as the bit pattern of a Kotlin `Byte`. */
  type byte = x: int | 0 <= x < 0x100
  /** `uint16_t` */
  type u16 = x: int | 0 <= x < 0x1_0000
  /** `uint32_t`; also `size_t` on the ESP32, whose pointers are 32 bits wide. */
  type u32 = x: int | 0 <= x < 0x1_0000_0000

  const SizeModulus: int := 0x1_0000_0000

  datatype Option<+T> = None | Some(value: T)

  /** A C string holds no NUL byte before its terminator. */
  predicate IsCString(s: seq<byte>)
  {
    forall i :: 0 <= i < |s| ==> s[i] != 0
  }

  /** The string that `strlen`, `%s` and `strncpy` see in a buffer: its
      bytes up to the first NUL, or all of them when it holds none. */
  function CString(s: seq<byte>): (r: seq<byte>)
    ensures IsCString(r) && |r| <= |s| && r == s[..|r|]
    ensures |r| < |s| ==> s[|r|] == 0
    decreases |s|
  {
    if |s| == 0 || s[0] == 0 then []
    else
      var t := CString(s[1..]);
      assert [s[0]] + t == s[..|t| + 1] by {
        assert t == s[1..][..|t|];
      }
      [s[0]] + t
  }

  /** A buffer with no NUL in it is read whole, and reading is idempotent. */
  lemma CStringWhole(s: seq<byte>)
    ensures IsCString(s) <==> CString(s) == s
    ensures CString(CString(s)) == CString(s)
  {
  }

  /** The sequence of `n` copies of `b`, as `memset` leaves a buffer. */
  function Fill(n: nat, b: byte): (r: seq<byte>)
    ensures |r| == n
    ensures forall i :: 0 <= i < n ==> r[i] == b
  {
    if n == 0 then [] else Fill(n - 1, b) + [b]
  }
}
