/** NUL-terminated C strings as the writers see them: the characters before
    the terminator, how they are read back out of a byte area, and the
    fixed-width name fields of Mach-O headers. */
module CStrings {

  /** A C string: the characters before its terminating NUL. */
  type CString = s: string | '\0' !in s

  /** The C string that starts at the beginning of `s`: everything up to the
      first NUL, or all of `s` when it holds none (a full-width name field). */
  function ReadCString(s: string): (r: CString)
    ensures |r| <= |s| && r == s[..|r|]
    ensures |r| == |s| || s[|r|] == '\0'
  {
    if |s| == 0 || s[0] == '\0' then []
    else
      var rest := ReadCString(s[1..]);
      [s[0]] + rest
  }

  /** A C string followed by a terminator (or by nothing) reads back as itself. */
  lemma {:induction false} ReadCStringOfTerminated(str: CString, tail: string)
    requires tail == [] || tail[0] == '\0'
    ensures ReadCString(str + tail) == str
  {
    if |str| > 0 {
      assert (str + tail)[1..] == str[1..] + tail;
      ReadCStringOfTerminated(str[1..], tail);
    }
  }

  function Zeros(n: nat): (r: string)
    ensures |r| == n && forall i :: 0 <= i < n ==> r[i] == '\0'
  {
    seq(n, _ => '\0')
  }

  /** MachOWriteStream::WriteFixedLengthCString: the first `n` characters of
      `str`, NUL-padded when `str` is shorter. */
  function FixedLengthCString(str: CString, n: nat): (r: string)
    ensures |r| == n
    ensures forall i :: 0 <= i < n && i < |str| ==> r[i] == str[i]
    ensures forall i :: |str| <= i < n ==> r[i] == '\0'
  {
    var len := |str|;
    var written := if n - len <= 0 then str[..n] else str;
    written + Zeros(if n - len > 0 then n - len else 0)
  }

  /** A name that fits its field reads back unchanged; a longer one is cut to
      the field's width. */
  lemma FixedLengthCStringRoundTrip(str: CString, n: nat)
    ensures |str| <= n ==> ReadCString(FixedLengthCString(str, n)) == str
    ensures |str| > n ==> ReadCString(FixedLengthCString(str, n)) == str[..n]
  {
    var r := FixedLengthCString(str, n);
    if |str| <= n {
      assert r == str + r[|str|..];
      ReadCStringOfTerminated(str, r[|str|..]);
    } else {
      assert r == str[..n];
      assert r + [] == r;
      ReadCStringOfTerminated(str[..n], []);
    }
  }
}
