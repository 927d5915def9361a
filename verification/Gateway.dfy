/** The gateway's request scanner: which sessions it answers with 403. */
module Gateway {

  const BUFFER_SIZE := 16384
  const SCAN_MAX := 4096
  const GET_VERB: string := "GET "
  const POST_VERB: string := "POST "
  const MIGRATION_ROUTE: string := "/api/migration/"
  const HTTP_VER: string := " HTTP/1."
  const ERR403: string := "HTTP/1.1 403 Forbidden\r\nContent-Length: 0\r\nConnection: close\r\n\r\n"

  datatype SessState = TlsHandshake | ConnectBack | ActivePump | Draining

  // ----- The verdict on the bytes received so far -----

  predicate MatchesAt(s: string, i: int, pat: string) {
    0 <= i && i + |pat| <= |s| && s[i..i + |pat|] == pat
  }

  predicate Contains(s: string, pat: string) {
    exists i {:trigger MatchesAt(s, i, pat)} :: 0 <= i <= |s| && MatchesAt(s, i, pat)
  }

  function Window(data: string): string {
    if |data| < SCAN_MAX then data else data[..SCAN_MAX]
  }

  predicate HasVerb(data: string) {
    |data| > 4 && (MatchesAt(data, 0, GET_VERB) || MatchesAt(data, 0, POST_VERB))
  }

  predicate Blocked(data: string) {
    HasVerb(data) && !Contains(Window(data), MIGRATION_ROUTE) && Contains(Window(data), HTTP_VER)
  }

  // ----- The code -----

  class Session {
    var uFd: int
    var state: SessState
    const c2uBuf: array<char>
    var c2uLen: int
    const u2cBuf: array<char>
    var u2cLen: int

    ghost predicate Valid()
      reads this
    {
      && c2uBuf.Length == u2cBuf.Length == BUFFER_SIZE && c2uBuf != u2cBuf
      && c2uLen <= BUFFER_SIZE
    }

    function Data(): string
      requires Valid()
      reads this, c2uBuf
    {
      if c2uLen < 0 then "" else c2uBuf[..c2uLen]
    }

    constructor (uFd: int, state: SessState, c2uBuf: array<char>, c2uLen: int, u2cBuf: array<char>, u2cLen: int)
      requires c2uBuf.Length == u2cBuf.Length == BUFFER_SIZE && c2uBuf != u2cBuf && c2uLen <= BUFFER_SIZE
      ensures Valid() && this.uFd == uFd && this.state == state
      ensures this.c2uBuf == c2uBuf && this.c2uLen == c2uLen && this.u2cBuf == u2cBuf && this.u2cLen == u2cLen
    {
      this.uFd, this.state, this.c2uBuf, this.c2uLen, this.u2cBuf, this.u2cLen := uFd, state, c2uBuf, c2uLen, u2cBuf, u2cLen;
    }

    /** `send_403_forbidden`. */
    method Send403Forbidden()
      requires Valid()
      modifies this, u2cBuf
      ensures Valid() && c2uLen == old(c2uLen)
      ensures uFd == if old(uFd) > 0 then -1 else old(uFd)
      ensures state == Draining && u2cLen == 64
      ensures u2cBuf[..]
        == "HTTP/1.1 403 Forbidden\r\nContent-Length: 0\r\nConnection: close\r\n\r\n" + old(u2cBuf[64..])
    {
      if uFd > 0 {
        uFd := -1;
      }
      var errLen := 64;
      u2cLen := 0;
      if u2cLen + errLen < BUFFER_SIZE {
        for k := 0 to errLen
          invariant u2cLen == 0 && Valid() && c2uLen == old(c2uLen)
          invariant uFd == if old(uFd) > 0 then -1 else old(uFd)
          invariant u2cBuf[..k] == ERR403[..k]
          invariant u2cBuf[k..] == old(u2cBuf[k..])
        {
          u2cBuf[u2cLen + k] := ERR403[k];
        }
        u2cLen := u2cLen + errLen;
      }
      state := Draining;
      assert ERR403[..64] == ERR403;
      assert u2cBuf[..] == u2cBuf[..64] + u2cBuf[64..];
    }

    /** Compares every byte of pat with the bytes at i, clearing a flag. */
    method Compare(i: int, pat: string) returns (isMatch: bool)
      requires Valid() && 0 <= i && i + |pat| <= BUFFER_SIZE
      ensures isMatch <==> c2uBuf[i..i + |pat|] == pat
    {
      isMatch := true;
      for m := 0 to |pat|
        invariant isMatch <==> c2uBuf[i..i + m] == pat[..m]
      {
        assert c2uBuf[i..i + m + 1] == c2uBuf[i..i + m] + [c2uBuf[i + m]];
        assert pat[..m + 1] == pat[..m] + [pat[m]];
        if c2uBuf[i + m] != pat[m] {
          isMatch := false;
        }
      }
      assert pat[..|pat|] == pat;
    }

    /** The scanning loop: is pat somewhere in the first scanLen bytes? */
    method Scan(scanLen: int, pat: string) returns (found: bool)
      requires Valid() && 0 <= scanLen <= BUFFER_SIZE && |pat| > 0
      ensures found <==> Contains(c2uBuf[..scanLen], pat)
    {
      ghost var window := c2uBuf[..scanLen];
      var i := 0;
      while i <= scanLen - |pat|
        invariant 0 <= i
        invariant forall k {:trigger MatchesAt(window, k, pat)} :: 0 <= k < i ==> !MatchesAt(window, k, pat)
        decreases scanLen - i
      {
        var isMatch := Compare(i, pat);
        assert window[i..i + |pat|] == c2uBuf[i..i + |pat|];
        if isMatch {
          assert MatchesAt(window, i, pat);
          return true;
        }
        i := i + 1;
      }
      return false;
    }

    /** `handle_client_in_mock`: drains the session exactly on the verdict. */
    method HandleClientIn()
      requires Valid()
      modifies this, u2cBuf
      ensures Valid() && c2uLen == old(c2uLen) && Data() == old(Data())
      ensures Blocked(old(Data())) ==>
        && state == Draining && u2cLen == 64 && u2cBuf[..] == ERR403 + old(u2cBuf[64..])
        && uFd == if old(uFd) > 0 then -1 else old(uFd)
      ensures !Blocked(old(Data())) ==>
        && state == old(state) && u2cLen == old(u2cLen) && u2cBuf[..] == old(u2cBuf[..])
        && uFd == old(uFd)
    {
      if c2uLen > 4 {
        ghost var data := Data();
        var isGet := Compare(0, GET_VERB);
        var isPost := Compare(0, POST_VERB);
        assert data[0..4] == c2uBuf[0..4] && data[0..5] == c2uBuf[0..5];
        assert HasVerb(data) <==> isGet || isPost;
        if isGet || isPost {
          var scanLen := if c2uLen < SCAN_MAX then c2uLen else SCAN_MAX;
          assert c2uBuf[..scanLen] == Window(data);
          var route := Scan(scanLen, MIGRATION_ROUTE);
          if route {
            return;
          }
          var version := Scan(scanLen, HTTP_VER);
          if version {
            Send403Forbidden();
            return;
          }
        }
      }
    }
  }

  // ----- How the verdict depends on the data -----

  lemma ContainsExtends(s: string, pat: string, more: string)
    requires Contains(s, pat)
    ensures Contains(s + more, pat)
  {
    var i :| 0 <= i <= |s| && MatchesAt(s, i, pat);
    assert (s + more)[i..i + |pat|] == s[i..i + |pat|];
    assert MatchesAt(s + more, i, pat);
  }

  lemma WindowExtends(data: string, more: string) returns (rest: string)
    ensures Window(data + more) == Window(data) + rest
    ensures |data| >= SCAN_MAX ==> rest == ""
  {
    rest := Window(data + more)[|Window(data)|..];
    assert Window(data + more)[..|Window(data)|] == Window(data);
  }

  lemma ContainsIff(s: string, pat: string)
    ensures Contains(s, pat) <==> exists a: string, b: string :: s == a + pat + b
  {
    if Contains(s, pat) {
      var i :| 0 <= i <= |s| && MatchesAt(s, i, pat);
      assert s == s[..i] + pat + s[i + |pat|..];
    }
    if a: string, b: string :| s == a + pat + b {
      assert s[|a|..|a| + |pat|] == pat;
      assert MatchesAt(s, |a|, pat);
    }
  }

  /** The verdict written out. */
  lemma BlockedIff(data: string)
    ensures Blocked(data) <==>
      var window := if |data| < 4096 then data else data[..4096];
      && |data| >= 5 && ("GET " <= data || "POST " <= data)
      && !(exists a: string, b: string :: window == a + "/api/migration/" + b)
      && (exists a: string, b: string :: window == a + " HTTP/1." + b)
  {
    ContainsIff(Window(data), MIGRATION_ROUTE);
    ContainsIff(Window(data), HTTP_VER);
    if |data| >= 5 {
      assert data[..4] == data[0..4] && data[..5] == data[0..5];
    }
    hide Contains;
  }

  /** Bytes past the first 4096 never matter. */
  lemma VerdictIgnoresTail(data: string, more: string)
    requires |data| >= SCAN_MAX
    ensures Blocked(data + more) <==> Blocked(data)
  {
    assert Window(data + more) == Window(data);
    assert (data + more)[0..4] == data[0..4] && (data + more)[0..5] == data[0..5];
  }

  /** Once the route has been seen, every extension of the data passes. */
  lemma RouteSeenPasses(data: string, more: string)
    requires Contains(Window(data), MIGRATION_ROUTE)
    ensures !Blocked(data + more)
  {
    var rest := WindowExtends(data, more);
    ContainsExtends(Window(data), MIGRATION_ROUTE, rest);
  }

  /** A blocked request stays blocked when more arrives, unless the route then
      shows up within the window. */
  lemma BlockedExtension(data: string, more: string)
    requires Blocked(data)
    ensures Blocked(data + more) <==> !Contains(Window(data + more), MIGRATION_ROUTE)
  {
    var rest := WindowExtends(data, more);
    ContainsExtends(Window(data), HTTP_VER, rest);
    var d := data + more;
    if MatchesAt(data, 0, GET_VERB) {
      assert d[0..4] == data[0..4];
    } else {
      assert d[0..5] == data[0..5];
    }
  }
}
