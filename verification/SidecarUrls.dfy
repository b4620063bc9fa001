// Rewriting sidecar URLs in a response body (internal/handlers/adapters.go).
module SidecarUrls {
  import opened Text

  const SIDECAR_HEAD := "http://mcp-sidecar-"
  const SIDECAR_TAIL := ".suse-ai-up-mcp.svc.cluster.local"
  const PROXY_HEAD := "http://localhost:8911/api/v1/adapters/"

  function SidecarUrl(id: string): (p: string)
    ensures |p| == |SIDECAR_HEAD| + |id| + |SIDECAR_TAIL|
  {
    SIDECAR_HEAD + id + SIDECAR_TAIL
  }

  function ProxyUrl(id: string): (r: string)
    ensures |r| == |PROXY_HEAD| + |id|
  {
    PROXY_HEAD + id
  }

  // strings.ReplaceAll with a pattern that is not empty: from left to right,
  // each match replaced and skipped.
  function ReplaceAll(s: string, pat: string, with: string): string
    requires pat != ""
    decreases |s|
  {
    if s == "" then ""
    else if pat <= s then with + ReplaceAll(s[|pat|..], pat, with)
    else [s[0]] + ReplaceAll(s[1..], pat, with)
  }

  // rewriteSidecarURLs
  function Rewrite(body: string, id: string): string {
    ReplaceAll(body, SidecarUrl(id), ProxyUrl(id))
  }

  // Adapter IDs as CreateAdapter admits them.
  predicate IsAdapterChar(c: char) {
    'a' <= c <= 'z' || '0' <= c <= '9' || c == '-'
  }

  predicate IsAdapterID(id: string) {
    forall i :: 0 <= i < |id| ==> IsAdapterChar(id[i])
  }

  predicate EndsWith(s: string, t: string) {
    |t| <= |s| && s[|s| - |t|..] == t
  }

  // ---- What is replaced and what stays ----------------------------------

  // strings.Join
  function Joined(pieces: seq<string>, sep: string): string
    requires pieces != []
  {
    if |pieces| == 1 then pieces[0] else pieces[0] + (sep + Joined(pieces[1..], sep))
  }

  // No match begins before the end of the piece.
  ghost predicate EndsAtFirst(piece: string, pat: string) {
    forall j :: 0 <= j < |piece| ==> !OccursAt(piece + pat, pat, j)
  }

  // The pieces are what stands between the leftmost matches that do not
  // overlap: each piece but the last ends where the first match begins.
  ghost predicate CutAtMatches(pieces: seq<string>, pat: string) {
    && pieces != []
    && (forall i :: 0 <= i < |pieces| - 1 ==> EndsAtFirst(pieces[i], pat))
    && !Contains(pieces[|pieces| - 1], pat)
  }

  // Replacing keeps all pieces and puts the new text between them.
  lemma {:induction false} ReplacedBetween(pieces: seq<string>, pat: string, with: string)
    requires pat != "" && CutAtMatches(pieces, pat)
    ensures ReplaceAll(Joined(pieces, pat), pat, with) == Joined(pieces, with)
  {
    if |pieces| == 1 {
      UnchangedWithout(pieces[0], pat, with);
    } else {
      ReplacedBetween(pieces[1..], pat, with);
      ReplacesFirst(pieces[0], Joined(pieces[1..], pat), pat, with);
    }
  }

  lemma {:induction false} ReplacesFirst(piece: string, rest: string, pat: string, with: string)
    requires pat != "" && EndsAtFirst(piece, pat)
    ensures ReplaceAll(piece + (pat + rest), pat, with) == piece + (with + ReplaceAll(rest, pat, with))
  {
    var s := piece + (pat + rest);
    if piece == "" {
      assert s == pat + rest;
      assert s[|pat|..] == rest;
    } else {
      assert !OccursAt(piece + pat, pat, 0);
      assert s[..|pat|] == (piece + pat)[..|pat|];
      assert s[1..] == piece[1..] + (pat + rest);
      ShorterPiece(piece, pat);
      ReplacesFirst(piece[1..], rest, pat, with);
      assert piece == [piece[0]] + piece[1..];
    }
  }

  lemma {:induction false} ShorterPiece(piece: string, pat: string)
    requires piece != "" && EndsAtFirst(piece, pat)
    ensures EndsAtFirst(piece[1..], pat)
  {
    forall j | 0 <= j < |piece[1..]|
      ensures !OccursAt(piece[1..] + pat, pat, j)
    {
      assert !OccursAt(piece + pat, pat, j + 1);
      assert (piece + pat)[1..] == piece[1..] + pat;
    }
  }

  // Every text can be cut so, and a body is rewritten by putting the proxy's
  // URL where the sidecar's stood.
  lemma {:induction false} RewriteReads(body: string, id: string) returns (pieces: seq<string>)
    ensures CutAtMatches(pieces, "http://mcp-sidecar-" + id + ".suse-ai-up-mcp.svc.cluster.local")
    ensures body == Joined(pieces, "http://mcp-sidecar-" + id + ".suse-ai-up-mcp.svc.cluster.local")
    ensures Rewrite(body, id) == Joined(pieces, "http://localhost:8911/api/v1/adapters/" + id)
  {
    pieces := Cut(body, SidecarUrl(id));
    ReplacedBetween(pieces, SidecarUrl(id), ProxyUrl(id));
  }

  lemma {:induction false} Cut(s: string, pat: string) returns (pieces: seq<string>)
    requires pat != ""
    ensures CutAtMatches(pieces, pat) && s == Joined(pieces, pat)
    decreases |s|
  {
    if Contains(s, pat) {
      var i := FirstMatch(s, pat);
      var more := Cut(s[i + |pat|..], pat);
      pieces := [s[..i]] + more;
      assert pieces[1..] == more;
      assert s == s[..i] + (pat + s[i + |pat|..]);
    } else {
      pieces := [s];
    }
  }

  lemma {:induction false} FirstMatch(s: string, pat: string) returns (i: nat)
    requires Contains(s, pat)
    ensures OccursAt(s, pat, i) && EndsAtFirst(s[..i], pat)
  {
    i := 0;
    while !OccursAt(s, pat, i)
      invariant forall j :: 0 <= j < i ==> !OccursAt(s, pat, j)
      invariant exists k :: i <= k <= |s| && OccursAt(s, pat, k)
      decreases |s| - i
    {
      i := i + 1;
    }
    assert s[..i] + pat == s[..i + |pat|];
    forall j | 0 <= j < i
      ensures !OccursAt(s[..i] + pat, pat, j)
    {
      assert !OccursAt(s, pat, j);
      assert j + |pat| <= i + |pat| ==> s[..i + |pat|][j..j + |pat|] == s[j..j + |pat|];
    }
  }

  // ---- Overlaps of pattern and replacement ------------------------------

  // `x` and `y` agree as far as both reach.
  predicate Agree(x: string, y: string) {
    x <= y || y <= x
  }

  // A replacement cannot begin inside an occurrence of the pattern, and an
  // occurrence cannot begin inside a replacement.
  ghost predicate NoOverlap(pat: string, with: string) {
    && (forall d :: 0 < d < |pat| ==> !Agree(pat[d..], with))
    && (forall e :: 0 <= e < |with| ==> !Agree(with[e..], pat))
  }

  // If the rewritten text begins with the end of a pattern, so did the text.
  lemma {:induction false} SuffixComesFromText(s: string, pat: string, with: string, d: nat)
    requires d <= |pat| && pat != "" && with != "" && NoOverlap(pat, with)
    ensures pat[d..] <= ReplaceAll(s, pat, with) ==> pat[d..] <= s
    decreases |pat| - d
  {
    var out := ReplaceAll(s, pat, with);
    if d == |pat| || (d == 0 && pat <= s) {
    } else if pat <= s {
      PrefixesAgree(pat[d..], with, out);
    } else if s != "" {
      assert out[1..] == ReplaceAll(s[1..], pat, with);
      SuffixComesFromText(s[1..], pat, with, d + 1);
      assert pat[d..] == [pat[d]] + pat[d + 1..] && s == [s[0]] + s[1..] && out == [out[0]] + out[1..];
    }
  }

  lemma {:induction false} PrefixesAgree(x: string, y: string, s: string)
    ensures x <= s && y <= s ==> Agree(x, y)
  {
    if x <= s && y <= s {
      assert x == s[..|x|] && y == s[..|y|];
    }
  }

  lemma {:induction false} OccursAfterPrefix(x: string, rest: string, pat: string, i: nat)
    requires i >= |x|
    ensures OccursAt(x + rest, pat, i) <==> OccursAt(rest, pat, i - |x|)
  {
    if i + |pat| <= |x + rest| {
      assert (x + rest)[i..i + |pat|] == rest[i - |x|..i - |x| + |pat|];
    }
  }

  lemma {:induction false} OccursWithinPrefix(x: string, rest: string, pat: string, i: nat)
    requires i < |x|
    ensures OccursAt(x + rest, pat, i) ==> Agree(x[i..], pat)
  {
    if OccursAt(x + rest, pat, i) {
      var s := (x + rest)[i..];
      assert pat == s[..|pat|] && x[i..] == s[..|x[i..]|];
      PrefixesAgree(x[i..], pat, s);
    }
  }

  // Without overlaps nothing is left to replace.
  lemma {:induction false} NoOccurrenceLeft(s: string, pat: string, with: string, i: nat)
    requires pat != "" && with != "" && NoOverlap(pat, with)
    ensures !OccursAt(ReplaceAll(s, pat, with), pat, i)
    decreases |s|
  {
    if s == "" {
    } else if pat <= s {
      var rest := ReplaceAll(s[|pat|..], pat, with);
      if i < |with| {
        OccursWithinPrefix(with, rest, pat, i);
      } else {
        NoOccurrenceLeft(s[|pat|..], pat, with, i - |with|);
        OccursAfterPrefix(with, rest, pat, i);
      }
    } else if i == 0 {
      SuffixComesFromText(s, pat, with, 0);
    } else {
      NoOccurrenceLeft(s[1..], pat, with, i - 1);
      OccursAfterPrefix([s[0]], ReplaceAll(s[1..], pat, with), pat, i);
    }
  }

  // Text without the pattern comes through unchanged, and only such text.
  lemma {:induction false} UnchangedWithout(s: string, pat: string, with: string)
    requires pat != "" && !Contains(s, pat)
    ensures ReplaceAll(s, pat, with) == s
  {
    if s != "" {
      assert !OccursAt(s, pat, 0);
      forall i | 0 <= i <= |s[1..]|
        ensures !OccursAt(s[1..], pat, i)
      {
        assert !OccursAt(s, pat, i + 1);
        assert i + |pat| <= |s[1..]| ==> s[1..][i..i + |pat|] == s[i + 1..i + 1 + |pat|];
      }
      UnchangedWithout(s[1..], pat, with);
    }
  }

  lemma {:induction false} ReplacingShrinks(s: string, pat: string, with: string)
    requires |with| < |pat|
    ensures |ReplaceAll(s, pat, with)| <= |s|
    ensures Contains(s, pat) ==> |ReplaceAll(s, pat, with)| < |s|
    decreases |s|
  {
    if s == "" {
    } else if pat <= s {
      ReplacingShrinks(s[|pat|..], pat, with);
    } else {
      ReplacingShrinks(s[1..], pat, with);
      if Contains(s, pat) {
        var i :| 0 <= i <= |s| && OccursAt(s, pat, i);
        assert i != 0;
        assert s[1..][i - 1..i - 1 + |pat|] == s[i..i + |pat|];
        assert OccursAt(s[1..], pat, i - 1);
      }
    }
  }

  // ---- The two URLs -----------------------------------------------------

  lemma {:induction false} ColonsOfSidecarUrl(id: string, j: nat)
    requires IsAdapterID(id) && j < |SidecarUrl(id)|
    ensures SidecarUrl(id)[j] == ':' ==> j == 4
  {
    var n := |SIDECAR_HEAD|;
    if j >= n + |id| {
      assert SidecarUrl(id)[j] == SIDECAR_TAIL[j - n - |id|];
    } else if j >= n {
      assert SidecarUrl(id)[j] == id[j - n];
    }
  }

  lemma {:induction false} ColonsOfProxyUrl(id: string, j: nat)
    requires IsAdapterID(id) && j < |ProxyUrl(id)|
    ensures ProxyUrl(id)[j] == ':' ==> j == 4 || j == 16
  {
    if j >= |PROXY_HEAD| {
      assert ProxyUrl(id)[j] == id[j - |PROXY_HEAD|];
    }
  }

  const HTTP := "http"

  // Does the ID end in "h", "ht", "htt" or "http"?
  predicate EndsLikeHttp(id: string) {
    exists k :: 1 <= k <= 4 && EndsWith(id, HTTP[..k])
  }

  lemma {:induction false} UrlHeads(id: string)
    ensures SidecarUrl(id)[..4] == HTTP
    ensures SidecarUrl(id)[4] == ':' && SidecarUrl(id)[7] == 'm' && SidecarUrl(id)[1] == 't'
    ensures ProxyUrl(id)[0] == 'h' && ProxyUrl(id)[4] == ':' && ProxyUrl(id)[7] == 'l' && ProxyUrl(id)[13] == 'o'
    ensures ProxyUrl(id)[|PROXY_HEAD| - 1] == '/'
  {
    SidecarHead(id);
    ProxyHead(id);
  }

  lemma {:induction false} SidecarHead(id: string)
    ensures SidecarUrl(id)[..4] == HTTP
    ensures SidecarUrl(id)[4] == ':' && SidecarUrl(id)[7] == 'm' && SidecarUrl(id)[1] == 't'
  {
    assert SidecarUrl(id)[..4] == SIDECAR_HEAD[..4];
  }

  lemma {:induction false} ProxyHead(id: string)
    ensures ProxyUrl(id)[0] == 'h' && ProxyUrl(id)[4] == ':' && ProxyUrl(id)[7] == 'l' && ProxyUrl(id)[13] == 'o'
    ensures ProxyUrl(id)[|PROXY_HEAD| - 1] == '/'
  {
  }

  lemma {:induction false} DifferAt(x: string, y: string, i: nat)
    requires i < |x| && i < |y| && x[i] != y[i]
    ensures !Agree(x, y)
  {
  }

  lemma {:induction false} ProxyNotInsideSidecar(id: string, d: nat)
    requires IsAdapterID(id) && 0 < d < |SidecarUrl(id)|
    ensures !Agree(SidecarUrl(id)[d..], ProxyUrl(id))
  {
    UrlHeads(id);
    if d + 4 < |SidecarUrl(id)| {
      ColonsOfSidecarUrl(id, d + 4);
      DifferAt(SidecarUrl(id)[d..], ProxyUrl(id), 4);
    } else {
      assert SidecarUrl(id)[d] == SIDECAR_TAIL[d - |SIDECAR_HEAD| - |id|] != 'h';
      DifferAt(SidecarUrl(id)[d..], ProxyUrl(id), 0);
    }
  }

  lemma {:induction false} SidecarNotInsideProxy(id: string, e: nat)
    requires IsAdapterID(id) && !EndsLikeHttp(id) && e < |ProxyUrl(id)|
    ensures !Agree(ProxyUrl(id)[e..], SidecarUrl(id))
  {
    UrlHeads(id);
    if e == 0 {
      DifferAt(ProxyUrl(id)[e..], SidecarUrl(id), 7);
    } else if e == 12 {
      DifferAt(ProxyUrl(id)[e..], SidecarUrl(id), 1);
    } else if e + 4 < |ProxyUrl(id)| {
      ColonsOfProxyUrl(id, e + 4);
      DifferAt(ProxyUrl(id)[e..], SidecarUrl(id), 4);
    } else {
      ProxyEnding(id, |ProxyUrl(id)| - e);
    }
  }

  // The last characters of a proxy URL are not those "http" begins with.
  lemma {:induction false} ProxyEnding(id: string, k: nat)
    requires !EndsLikeHttp(id) && 1 <= k <= 4
    ensures !Agree(ProxyUrl(id)[|ProxyUrl(id)| - k..], SidecarUrl(id))
  {
    UrlHeads(id);
    var end, p := ProxyUrl(id)[|ProxyUrl(id)| - k..], SidecarUrl(id);
    assert p[..k] == HTTP[..k] by { assert p[..4][..k] == p[..k]; }
    if k <= |id| {
      assert end == id[|id| - k..];
      assert !EndsWith(id, HTTP[..k]);
      assert end != p[..k];
    } else {
      assert end[k - |id| - 1] == '/';
      assert HTTP[..k][k - |id| - 1] != '/';
    }
  }

  lemma {:induction false} UrlsDoNotOverlap(id: string)
    requires IsAdapterID(id) && !EndsLikeHttp(id)
    ensures NoOverlap(SidecarUrl(id), ProxyUrl(id))
  {
    forall d | 0 < d < |SidecarUrl(id)|
      ensures !Agree(SidecarUrl(id)[d..], ProxyUrl(id))
    {
      ProxyNotInsideSidecar(id, d);
    }
    forall e | 0 <= e < |ProxyUrl(id)|
      ensures !Agree(ProxyUrl(id)[e..], SidecarUrl(id))
    {
      SidecarNotInsideProxy(id, e);
    }
  }

  // For an ID that ends like the beginning of "http", a sidecar URL followed
  // by the rest of another one rewrites to a text that holds the second.
  lemma {:induction false} OverlappingBody(id: string) returns (body: string)
    requires EndsLikeHttp(id)
    ensures Contains(Rewrite(body, id), SidecarUrl(id))
  {
    var p, r := SidecarUrl(id), ProxyUrl(id);
    var k :| 1 <= k <= 4 && EndsWith(id, HTTP[..k]);
    var rest := p[k..];
    body := p + rest;
    assert Rewrite(body, id) == r + rest by {
      assert body[|p|..] == rest && !Contains(rest, p);
      UnchangedWithout(rest, p, r);
    }
    UrlHeads(id);
    assert p[..4][..k] == p[..k];
    ProxyThenRest(r, p, k, id);
  }

  lemma {:induction false} ProxyThenRest(r: string, p: string, k: nat, id: string)
    requires r == ProxyUrl(id) && k <= |p| && k <= |id| && id[|id| - k..] == p[..k]
    ensures Contains(r + p[k..], p)
  {
    assert r[|r| - k..] == id[|id| - k..];
    var out := r + p[k..];
    assert out[|r| - k..] == p[..k] + p[k..] == p;
    assert OccursAt(out, p, |r| - k) by { assert out[|r| - k..|r| - k + |p|] == p; }
  }

  // No rewritten body mentions the sidecar any more, and rewriting twice is
  // rewriting once: for exactly those adapter IDs that do not end in "h",
  // "ht", "htt" or "http".
  lemma {:induction false} NoSidecarUrlLeftIff(id: string)
    requires IsAdapterID(id)
    ensures (forall body :: !Contains(Rewrite(body, id), SidecarUrl(id))) <==> !EndsLikeHttp(id)
    ensures (forall body :: Rewrite(Rewrite(body, id), id) == Rewrite(body, id)) <==> !EndsLikeHttp(id)
  {
    var p, r := SidecarUrl(id), ProxyUrl(id);
    if EndsLikeHttp(id) {
      var body := OverlappingBody(id);
      ReplacingShrinks(Rewrite(body, id), p, r);
      assert Rewrite(Rewrite(body, id), id) != Rewrite(body, id);
    } else {
      UrlsDoNotOverlap(id);
      forall body
        ensures !Contains(Rewrite(body, id), p) && Rewrite(Rewrite(body, id), id) == Rewrite(body, id)
      {
        forall i | 0 <= i <= |Rewrite(body, id)|
          ensures !OccursAt(Rewrite(body, id), p, i)
        {
          NoOccurrenceLeft(body, p, r, i);
        }
        UnchangedWithout(Rewrite(body, id), p, r);
      }
    }
  }

  // A body is changed exactly when it holds the sidecar URL.
  lemma {:induction false} RewriteChangesIff(body: string, id: string)
    ensures Rewrite(body, id) != body <==> Contains(body, SidecarUrl(id))
  {
    if Contains(body, SidecarUrl(id)) {
      ReplacingShrinks(body, SidecarUrl(id), ProxyUrl(id));
    } else {
      UnchangedWithout(body, SidecarUrl(id), ProxyUrl(id));
    }
  }
}
