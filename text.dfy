/** The few Python `str` operations the request handler relies on:
    `strip()`, `startswith(...)`, `split(" ", 1)[1]` and `replace("Z", "+00:00")`. */
module Text {
  import opened Wrappers

  /** Python's `str.isspace()` for one code point: the characters `str.strip()` removes. */
  predicate IsSpace(c: char)
  {
    var n := c as int;
    (0x09 <= n <= 0x0D) || (0x1C <= n <= 0x20) || n == 0x85 || n == 0xA0 || n == 0x1680
    || (0x2000 <= n <= 0x200A) || n == 0x2028 || n == 0x2029 || n == 0x202F || n == 0x205F
    || n == 0x3000
  }

  predicate AllSpace(s: string)
  {
    forall k :: 0 <= k < |s| ==> IsSpace(s[k])
  }

  /** No whitespace at either end: what `strip()` leaves behind. */
  predicate Stripped(s: string)
  {
    s == [] || (!IsSpace(s[0]) && !IsSpace(s[|s| - 1]))
  }

  function TrimStart(s: string): string
  {
    if s != [] && IsSpace(s[0]) then TrimStart(s[1..]) else s
  }

  function TrimEnd(s: string): string
  {
    if s != [] && IsSpace(s[|s| - 1]) then TrimEnd(s[..|s| - 1]) else s
  }

  /** Python's `s.strip()` with no argument. */
  function Trim(s: string): string
  {
    TrimEnd(TrimStart(s))
  }

  /** `TrimStart` drops exactly a whitespace prefix and stops at the first other character. */
  lemma {:induction false} TrimStartShape(s: string) returns (i: nat)
    ensures i <= |s| && TrimStart(s) == s[i..] && AllSpace(s[..i])
    ensures TrimStart(s) == [] || !IsSpace(TrimStart(s)[0])
  {
    if s != [] && IsSpace(s[0]) {
      var i' := TrimStartShape(s[1..]);
      i := i' + 1;
      assert s[1..][i'..] == s[i..];
      assert forall k :: 0 <= k < i ==> s[..i][k] == (if k == 0 then s[0] else s[1..][..i'][k - 1]);
    } else {
      i := 0;
    }
  }

  /** `TrimEnd` drops exactly a whitespace suffix and stops at the last other character. */
  lemma {:induction false} TrimEndShape(s: string) returns (j: nat)
    ensures j <= |s| && TrimEnd(s) == s[..j] && AllSpace(s[j..])
    ensures TrimEnd(s) == [] || !IsSpace(TrimEnd(s)[|TrimEnd(s)| - 1])
    ensures s != [] && !IsSpace(s[0]) ==> TrimEnd(s) != [] && TrimEnd(s)[0] == s[0]
  {
    if s != [] && IsSpace(s[|s| - 1]) {
      var s' := s[..|s| - 1];
      j := TrimEndShape(s');
      assert s'[..j] == s[..j];
      assert forall k :: 0 <= k < |s| - j ==> s[j..][k] == (if k < |s'| - j then s'[j..][k] else s[|s| - 1]);
    } else {
      j := |s|;
    }
  }

  /** `strip()` keeps a contiguous slice `s[i..j]`, everything outside it is whitespace and the
      slice itself starts and ends with a non-whitespace character. These facts determine the
      result uniquely. */
  lemma TrimShape(s: string) returns (i: nat, j: nat)
    ensures i <= j <= |s| && Trim(s) == s[i..j]
    ensures AllSpace(s[..i]) && AllSpace(s[j..])
    ensures Stripped(Trim(s))
  {
    i := TrimStartShape(s);
    var t := TrimStart(s);
    var j' := TrimEndShape(t);
    j := i + j';
    assert t[..j'] == s[i..j];
    assert t[j'..] == s[j..];
  }

  /** A string with no whitespace at its ends is its own `strip()`. */
  lemma TrimStripped(s: string)
    requires Stripped(s)
    ensures Trim(s) == s
  {
  }

  /** `strip()` is idempotent. */
  lemma TrimIdempotent(s: string)
    ensures Trim(Trim(s)) == Trim(s)
  {
    var _, _ := TrimShape(s);
    TrimStripped(Trim(s));
  }

  /** Python's `s.startswith(prefix)`. */
  predicate StartsWith(s: string, prefix: string)
  {
    |prefix| <= |s| && s[..|prefix|] == prefix
  }

  /** Python's `s.split(" ", 1)[1]`: the text after the first space, or `None` where Python would
      raise `IndexError` because `s` holds no space. */
  function AfterFirstSpace(s: string): Option<string>
  {
    if s == [] then None
    else if s[0] == ' ' then Some(s[1..])
    else AfterFirstSpace(s[1..])
  }

  /** `split(" ", 1)[1]` exists exactly when there is a space, and is what follows the first one. */
  lemma {:induction false} AfterFirstSpaceSpec(s: string)
    ensures AfterFirstSpace(s).Some? <==> ' ' in s
    ensures AfterFirstSpace(s).Some? ==>
      exists i :: 0 <= i < |s| && s[i] == ' ' && ' ' !in s[..i] && AfterFirstSpace(s).value == s[i + 1..]
  {
    if s != [] {
      assert s == [s[0]] + s[1..];
      if s[0] == ' ' {
        assert s[..0] == [];
      } else {
        AfterFirstSpaceSpec(s[1..]);
        var r := AfterFirstSpace(s[1..]);
        if r.Some? {
          var i :| 0 <= i < |s[1..]| && s[1..][i] == ' ' && ' ' !in s[1..][..i] && r.value == s[1..][i + 1..];
          assert s[..i + 1] == [s[0]] + s[1..][..i];
          assert s[i + 1] == ' ' && r.value == s[i + 2..];
        }
      }
    }
  }

  /** After a `Bearer ` prefix, the token the handler compares is everything after those seven
      characters. */
  lemma BearerToken(h: string)
    requires StartsWith(h, "Bearer ")
    ensures AfterFirstSpace(h) == Some(h[7..])
  {
    assert h[..7] == "Bearer ";
    assert forall m :: 0 <= m < 6 ==> h[m] == h[..7][m] != ' ';
    assert h[6] == ' ';
    AfterFirstSpaceSpec(h);
    var i :| 0 <= i < |h| && h[i] == ' ' && ' ' !in h[..i] && AfterFirstSpace(h).value == h[i + 1..];
  }

  /** Python's `s.replace("Z", "+00:00")`: every `Z` becomes the explicit UTC offset. */
  function ReplaceZ(s: string): string
  {
    if s == [] then []
    else (if s[0] == 'Z' then "+00:00" else [s[0]]) + ReplaceZ(s[1..])
  }

  /** No `Z` survives the replacement, and a string without `Z` is left unchanged. */
  lemma {:induction false} ReplaceZSpec(s: string)
    ensures 'Z' !in ReplaceZ(s)
    ensures 'Z' !in s ==> ReplaceZ(s) == s
  {
    if s != [] {
      ReplaceZSpec(s[1..]);
      assert s == [s[0]] + s[1..];
    }
  }
}
