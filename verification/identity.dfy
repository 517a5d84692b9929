/** The pseudonymous identity scheme: a display name is stripped of surrounding
    whitespace and hashed; the first 16 hex digits of the digest are the user id. */
module Identity {

  /** The characters Python's `str.strip()` removes (those for which `str.isspace()` holds). */
  predicate IsSpace(c: char) {
    || c == ' ' || ('\t' <= c <= '\r') || ('\U{1c}' <= c <= '\U{1f}')
    || c == '\U{85}' || c == '\U{a0}' || c == '\U{1680}'
    || ('\U{2000}' <= c <= '\U{200a}') || c == '\U{2028}' || c == '\U{2029}'
    || c == '\U{202f}' || c == '\U{205f}' || c == '\U{3000}'
  }

  predicate AllSpace(s: string) {
    forall i :: 0 <= i < |s| ==> IsSpace(s[i])
  }

  /** Neither end of `s` is whitespace. */
  predicate NoEdgeSpace(s: string) {
    s == [] || (!IsSpace(s[0]) && !IsSpace(s[|s| - 1]))
  }

  function TrimLeft(s: string): (r: string)
    ensures |r| <= |s|
    ensures r == [] || !IsSpace(r[0])
    ensures r == [] ==> AllSpace(s)
    ensures r == s[|s| - |r|..]
  {
    if |s| > 0 && IsSpace(s[0]) then TrimLeft(s[1..]) else s
  }

  function TrimRight(s: string): (r: string)
    ensures |r| <= |s|
    ensures r == [] || !IsSpace(r[|r| - 1])
    ensures r == [] ==> AllSpace(s)
    ensures r == s[..|r|]
  {
    if |s| > 0 && IsSpace(s[|s| - 1]) then TrimRight(s[..|s| - 1]) else s
  }

  /** Python's `str.strip()` with no argument: `s` with its leading and trailing
      whitespace removed, so that what is left starts and ends with a non-space. */
  function Strip(s: string): (r: string)
    ensures NoEdgeSpace(r)
    ensures |r| <= |s|
    ensures r == [] <==> AllSpace(s)
  {
    StripFacts(s);
    TrimRight(TrimLeft(s))
  }

  /** The trims' contracts combined. */
  lemma StripFacts(s: string)
    ensures var r := TrimRight(TrimLeft(s));
            NoEdgeSpace(r) && (r == [] <==> AllSpace(s))
  {
    var t := TrimLeft(s);
    TrimBoth(s, t, TrimRight(t));
  }

  /** The facts `Strip` draws from the two trims' contracts. */
  lemma TrimBoth(s: string, t: string, r: string)
    requires |t| <= |s| && t == s[|s| - |t|..] && (t == [] || !IsSpace(t[0])) && (t == [] ==> AllSpace(s))
    requires |r| <= |t| && r == t[..|r|] && (r == [] || !IsSpace(r[|r| - 1])) && (r == [] ==> AllSpace(t))
    ensures NoEdgeSpace(r)
    ensures r == [] <==> AllSpace(s)
  {
    if r != [] {
      assert r[0] == t[0];
    }
  }

  /** `r` is a contiguous run of `s` with only whitespace before and after it. */
  ghost predicate PaddedBy(s: string, r: string) {
    exists i :: 0 <= i <= |s| - |r| && r == s[i..i + |r|] && AllSpace(s[..i]) && AllSpace(s[i + |r|..])
  }

  /** `Strip(s)` is `s` with a whitespace-only prefix and a whitespace-only suffix cut off. */
  lemma {:induction false} StripRemovesOnlyPadding(s: string)
    ensures PaddedBy(s, Strip(s))
  {
    var t := TrimLeft(s);
    var r := TrimRight(t);
    var i := |s| - |t|;
    TrimLeftDropsSpace(s);
    TrimRightDropsSpace(t);
    PaddingSplit(s, t, r);
    assert 0 <= i <= |s| - |r| && r == s[i..i + |r|] && AllSpace(s[..i]) && AllSpace(s[i + |r|..]);
  }

  /** Cutting a whitespace prefix off `s` and then a whitespace suffix off the rest
      leaves a contiguous run of `s` with whitespace on both sides. */
  lemma PaddingSplit(s: string, t: string, r: string)
    requires |t| <= |s| && t == s[|s| - |t|..] && AllSpace(s[..|s| - |t|])
    requires |r| <= |t| && r == t[..|r|] && AllSpace(t[|r|..])
    ensures var i := |s| - |t|;
            && i + |r| <= |s|
            && r == s[i..i + |r|]
            && AllSpace(s[..i]) && AllSpace(s[i + |r|..])
  {
    var i := |s| - |t|;
    assert s[i + |r|..] == t[|r|..];
  }

  /** What `TrimLeft` drops is whitespace. */
  lemma {:induction false} TrimLeftDropsSpace(s: string)
    ensures AllSpace(s[..|s| - |TrimLeft(s)|])
  {
    if |s| > 0 && IsSpace(s[0]) {
      TrimLeftDropsSpace(s[1..]);
      var k := |s| - |TrimLeft(s)|;
      assert s[..k] == [s[0]] + s[1..][..k - 1];
    }
  }

  /** What `TrimRight` drops is whitespace. */
  lemma {:induction false} TrimRightDropsSpace(s: string)
    ensures AllSpace(s[|TrimRight(s)|..])
  {
    if |s| > 0 && IsSpace(s[|s| - 1]) {
      var u := s[..|s| - 1];
      TrimRightDropsSpace(u);
      assert s[|TrimRight(s)|..] == u[|TrimRight(u)|..] + [s[|s| - 1]];
    }
  }

  lemma {:induction false} TrimLeftSpacePrefix(ws: string, t: string)
    requires AllSpace(ws)
    ensures TrimLeft(ws + t) == TrimLeft(t)
  {
    if |ws| > 0 {
      assert (ws + t)[1..] == ws[1..] + t;
      TrimLeftSpacePrefix(ws[1..], t);
    } else {
      assert ws + t == t;
    }
  }

  lemma {:induction false} TrimLeftAppend(t: string, u: string)
    requires !AllSpace(t)
    ensures TrimLeft(t + u) == TrimLeft(t) + u
  {
    assert |t| > 0;
    if IsSpace(t[0]) {
      assert (t + u)[1..] == t[1..] + u;
      TrimLeftAppend(t[1..], u);
    }
  }

  lemma {:induction false} TrimRightSpaceSuffix(t: string, ws: string)
    requires AllSpace(ws)
    ensures TrimRight(t + ws) == TrimRight(t)
  {
    if |ws| > 0 {
      var w := ws[..|ws| - 1];
      assert (t + ws)[..|t + ws| - 1] == t + w;
      TrimRightSpaceSuffix(t, w);
    } else {
      assert t + ws == t;
    }
  }

  /** Surrounding whitespace never changes the stripped name. */
  lemma {:induction false} StripIgnoresPadding(ws1: string, name: string, ws2: string)
    requires AllSpace(ws1) && AllSpace(ws2)
    ensures Strip(ws1 + name + ws2) == Strip(name)
  {
    var s := ws1 + name + ws2;
    if AllSpace(name) {
      forall k | 0 <= k < |s|
        ensures IsSpace(s[k])
      {
        if k < |ws1| {
          assert s[k] == ws1[k];
        } else if k < |ws1| + |name| {
          assert s[k] == name[k - |ws1|];
        } else {
          assert s[k] == ws2[k - |ws1| - |name|];
        }
      }
    } else {
      assert s == ws1 + (name + ws2);
      TrimLeftSpacePrefix(ws1, name + ws2);
      TrimLeftAppend(name, ws2);
      TrimRightSpaceSuffix(TrimLeft(name), ws2);
    }
  }

  /** Stripping is idempotent. */
  lemma {:induction false} StripIdempotent(s: string)
    ensures Strip(Strip(s)) == Strip(s)
  {
    var r := Strip(s);
    if r != [] {
      assert TrimLeft(r) == r;
      assert TrimRight(r) == r;
    }
  }

  predicate IsLowerHex(s: string) {
    forall i :: 0 <= i < |s| ==> '0' <= s[i] <= '9' || 'a' <= s[i] <= 'f'
  }

  /** A SHA-256 `hexdigest()`: 64 lowercase hex digits. */
  type Digest = s: string | |s| == 64 && IsLowerHex(s)
    witness seq(64, i => '0')

  const UserIdLength: nat := 16

  /** `make_user_id`: the hash itself (SHA-256 of the UTF-8 bytes) is the parameter `sha`. */
  function MakeUserId(sha: string -> Digest, name: string): (r: string)
    ensures |r| == UserIdLength && IsLowerHex(r)
    ensures r <= sha(name)
  {
    sha(name)[..UserIdLength]
  }

  /** Names that differ only in surrounding whitespace get the same id once stripped,
      as the review handlers strip the name before hashing it. */
  lemma PaddedNamesShareUserId(sha: string -> Digest, ws1: string, name: string, ws2: string)
    requires AllSpace(ws1) && AllSpace(ws2)
    ensures MakeUserId(sha, Strip(ws1 + name + ws2)) == MakeUserId(sha, Strip(name))
  {
    StripIgnoresPadding(ws1, name, ws2);
  }
}
