/** Spotlighting of untrusted text: markers with a nonce, the sanitiser that keeps a body from
    containing one, and the parser that shows the wrapping is unambiguous. */
module ContentIsolation {
  import opened Decimals

  const BEGIN := "[BEGIN-DATA:"
  const END := "[END-DATA:"
  const ESCAPED := "[escaped-marker]"
  const STRIPPED := "[stripped-marker]"

  // ---------------------------------------------------------------------
  // Markers
  // ---------------------------------------------------------------------

  predicate IsHex(c: char) {
    '0' <= c <= '9' || 'a' <= c <= 'f' || 'A' <= c <= 'F'
  }

  /** Length of the longest hexadecimal prefix. */
  function HexRun(s: string): (n: nat)
    ensures n <= |s| && (forall i :: 0 <= i < n ==> IsHex(s[i])) && (n < |s| ==> !IsHex(s[n]))
  {
    if s == [] || !IsHex(s[0]) then 0 else 1 + HexRun(s[1..])
  }

  /** Length of a marker with the given head at the front of s, or 0. */
  function MarkerWith(s: string, head: string): (n: nat)
    ensures n <= |s|
  {
    if head <= s then
      var h := HexRun(s[|head|..]);
      if h > 0 && |head| + h < |s| && s[|head| + h] == ']' then |head| + h + 1 else 0
    else 0
  }

  /** Length of the marker at the front of s, or 0: a begin or end tag around one or more hex digits. */
  function MarkerLen(s: string): (n: nat)
    ensures n <= |s|
  {
    if MarkerWith(s, BEGIN) > 0 then MarkerWith(s, BEGIN) else MarkerWith(s, END)
  }

  ghost predicate IsMarker(m: string) {
    MarkerLen(m) == |m| > 0
  }

  ghost predicate NoMarkers(s: string) {
    forall i :: 0 <= i < |s| ==> MarkerLen(s[i..]) == 0
  }

  function OpenTag(nonce: string): string {
    BEGIN + nonce + "]"
  }

  function CloseTag(nonce: string): string {
    END + nonce + "]"
  }

  ghost predicate HexNonce(nonce: string) {
    nonce != [] && forall c :: c in nonce ==> IsHex(c)
  }

  // ---------------------------------------------------------------------
  // The sanitiser
  // ---------------------------------------------------------------------

  /** `str.replace`: every occurrence, left to right. */
  function ReplaceAll(s: string, what: string, sub: string): string
    requires what != []
  {
    if s == [] then []
    else if what <= s then sub + ReplaceAll(s[|what|..], what, sub)
    else [s[0]] + ReplaceAll(s[1..], what, sub)
  }

  /** `pattern.sub` with the marker pattern: rewrite each marker, left to right. */
  function Rewrite(s: string, f: string -> string): string {
    if s == [] then []
    else if MarkerLen(s) > 0 then f(s[..MarkerLen(s)]) + Rewrite(s[MarkerLen(s)..], f)
    else [s[0]] + Rewrite(s[1..], f)
  }

  function StripForeignMarkers(text: string): string {
    Rewrite(text, m => STRIPPED)
  }

  function Sanitise(content: string, nonce: string): string {
    StripForeignMarkers(ReplaceAll(ReplaceAll(content, OpenTag(nonce), ESCAPED), CloseTag(nonce), ESCAPED))
  }

  function WrapUntrusted(content: string, nonce: string): string {
    OpenTag(nonce) + "\n" + Sanitise(content, nonce) + "\n" + CloseTag(nonce)
  }

  // ---------------------------------------------------------------------
  // Facts about markers
  // ---------------------------------------------------------------------

  lemma {:induction false} HexRunPrefix(s: string, t: string)
    requires HexRun(s) < |s|
    ensures HexRun(s + t) == HexRun(s)
  {
    if IsHex(s[0]) {
      HexRunPrefix(s[1..], t);
      assert (s + t)[1..] == s[1..] + t;
    }
  }

  lemma {:induction false} MarkerWithPrefix(m: string, t: string, head: string)
    requires MarkerWith(m, head) == |m| > 0 && |head| > 0
    ensures MarkerWith(m + t, head) == |m|
  {
    assert (m + t)[|head|..] == m[|head|..] + t;
    HexRunPrefix(m[|head|..], t);
  }

  /** A marker is recognised whatever follows it. */
  lemma {:induction false} MarkerPrefix(m: string, t: string)
    requires IsMarker(m)
    ensures MarkerLen(m + t) == |m|
  {
    if MarkerWith(m, BEGIN) > 0 {
      MarkerWithPrefix(m, t, BEGIN);
    } else {
      MarkerWithPrefix(m, t, END);
      assert (m + t)[1] == m[1] == 'E';
    }
  }

  lemma {:induction false} HexRunOfPrefix(s: string, n: nat)
    requires HexRun(s) < n <= |s|
    ensures HexRun(s[..n]) == HexRun(s)
  {
    assert s == s[..n] + s[n..];
    HexRunUnique(s[..n], HexRun(s));
  }

  lemma {:induction false} HexRunUnique(s: string, n: nat)
    requires n <= |s| && (forall i :: 0 <= i < n ==> IsHex(s[i])) && (n < |s| ==> !IsHex(s[n]))
    ensures HexRun(s) == n
  {
  }

  /** The recognised prefix is itself a marker. */
  lemma {:induction false} MarkerItself(s: string)
    requires MarkerLen(s) > 0
    ensures IsMarker(s[..MarkerLen(s)])
  {
    var n := MarkerLen(s);
    var head := if MarkerWith(s, BEGIN) > 0 then BEGIN else END;
    var m := s[..n];
    HexRunOfPrefix(s[|head|..], n - |head|);
    assert m[|head|..] == s[|head|..][..n - |head|];
    assert MarkerWith(m, head) == n;
    if head == END {
      assert m[1] == s[1] == 'E';
    }
  }

  /** A marker is a bracket, hex and tag letters without brackets, and a closing bracket. */
  lemma {:induction false} MarkerShape(m: string)
    requires IsMarker(m)
    ensures |m| >= 2 && m[0] == '[' && (m[1] == 'B' || m[1] == 'E') && '[' !in m[1..] && '\n' !in m
  {
    var head := if MarkerWith(m, BEGIN) > 0 then BEGIN else END;
    var h := HexRun(m[|head|..]);
    forall i | 0 <= i < |m| ensures m[i] == '[' <==> i == 0
      ensures m[i] != '\n'
    {
      if i < |head| {
        assert m[i] == head[i];
      } else if i < |head| + h {
        assert m[i] == m[|head|..][i - |head|];
      }
    }
    assert m[1] == head[1];
  }

  lemma {:induction false} TagsAreMarkers(nonce: string)
    requires HexNonce(nonce)
    ensures IsMarker(OpenTag(nonce)) && IsMarker(CloseTag(nonce))
  {
    TagIsMarker(nonce, BEGIN);
    TagIsMarker(nonce, END);
    assert CloseTag(nonce)[1] == 'E';
  }

  lemma {:induction false} TagIsMarker(nonce: string, head: string)
    requires HexNonce(nonce)
    ensures MarkerWith(head + nonce + "]", head) == |head + nonce + "]"|
  {
    var m := head + nonce + "]";
    assert m[|head|..] == nonce + "]";
    HexRunUnique(nonce + "]", |nonce|);
    assert head <= m;
  }

  // ---------------------------------------------------------------------
  // Rewriting markers
  // ---------------------------------------------------------------------

  /** A replacement that neither is a marker nor can become part of one. */
  ghost predicate Inert(r: string) {
    |r| >= 2 && r[0] == '[' && r[1] != 'B' && r[1] != 'E' && '[' !in r[1..]
  }

  /** Each marker is left alone or replaced by inert text. */
  ghost predicate Tame(f: string -> string) {
    forall m :: IsMarker(m) ==> f(m) == m || Inert(f(m))
  }

  lemma {:induction false} NotAMarker(r: string)
    requires r == [] || r[0] != '[' || (|r| >= 2 && r[1] != 'B' && r[1] != 'E')
    ensures MarkerLen(r) == 0
  {
    if MarkerLen(r) > 0 {
      MarkerItself(r);
      MarkerShape(r[..MarkerLen(r)]);
    }
  }

  /** Text without an opening bracket passes through a rewrite. */
  lemma {:induction false} PlainPasses(p: string, t: string, f: string -> string)
    requires '[' !in p
    ensures Rewrite(p + t, f) == p + Rewrite(t, f)
  {
    hide MarkerLen;
    if p == [] {
      assert p + t == t;
    } else {
      assert (p + t)[0] == p[0] && (p + t)[1..] == p[1..] + t;
      NotAMarker(p + t);
      PlainPasses(p[1..], t, f);
    }
  }

  lemma {:induction false} InertPasses(r: string, t: string, f: string -> string)
    requires Inert(r)
    ensures Rewrite(r + t, f) == r + Rewrite(t, f)
  {
    hide MarkerLen;
    assert (r + t)[0] == r[0] && (r + t)[1] == r[1] && (r + t)[1..] == r[1..] + t;
    NotAMarker(r + t);
    PlainPasses(r[1..], t, f);
    assert r == [r[0]] + r[1..];
  }

  lemma {:induction false} MarkerPasses(m: string, t: string, f: string -> string)
    requires IsMarker(m)
    ensures Rewrite(m + t, f) == f(m) + Rewrite(t, f)
  {
    MarkerPrefix(m, t);
    assert (m + t)[..|m|] == m && (m + t)[|m|..] == t;
  }

  lemma {:induction false} FrontBracket(s: string, f: string -> string)
    requires Tame(f) && MarkerLen(s) > 0
    ensures Rewrite(s, f) != [] && Rewrite(s, f)[0] == '['
  {
    hide MarkerLen;
    var m := s[..MarkerLen(s)];
    MarkerItself(s);
    MarkerShape(m);
    assert f(m)[0] == '[';
  }

  /** Up to its first bracket, rewritten text is the original text. */
  lemma {:induction false} BracketFreePrefix(s: string, f: string -> string, k: nat)
    requires Tame(f) && k <= |Rewrite(s, f)| && '[' !in Rewrite(s, f)[..k]
    ensures k <= |s| && Rewrite(s, f)[..k] == s[..k]
  {
    hide MarkerLen;
    if k > 0 && s != [] {
      var r := Rewrite(s, f);
      assert r[..k][0] == r[0];
      if MarkerLen(s) > 0 {
        FrontBracket(s, f);
      } else {
        assert r[1..] == Rewrite(s[1..], f) && r[..k][1..] == r[1..][..k - 1];
        BracketFreePrefix(s[1..], f, k - 1);
        assert s[..k] == [s[0]] + s[1..][..k - 1];
        assert r[..k] == [r[0]] + r[1..][..k - 1];
      }
    }
  }

  /** A rewrite creates no marker: one at the front of kept text was there before. */
  lemma {:induction false} NoNewMarker(s: string, f: string -> string)
    requires Tame(f) && s != []
    ensures var out := [s[0]] + Rewrite(s[1..], f); MarkerLen(out) > 0 ==> MarkerLen(s) == MarkerLen(out)
  {
    hide MarkerLen, Rewrite;
    var out := [s[0]] + Rewrite(s[1..], f);
    var n := MarkerLen(out);
    if n > 0 {
      MarkerItself(out);
      MarkerShape(out[..n]);
      assert out[..n][1..] == Rewrite(s[1..], f)[..n - 1];
      BracketFreePrefix(s[1..], f, n - 1);
      assert s[..n] == [s[0]] + s[1..][..n - 1];
      assert out[..n] == s[..n];
      MarkerPrefix(s[..n], s[n..]);
      assert s == s[..n] + s[n..];
    }
  }

  function Then(f: string -> string, g: string -> string): string -> string {
    m => if f(m) == m then g(m) else f(m)
  }

  /** Two rewrites in a row are one: what the first replaced stays, the second sees the rest. */
  lemma {:induction false} RewriteFuses(s: string, f: string -> string, g: string -> string)
    requires Tame(f)
    ensures Rewrite(Rewrite(s, f), g) == Rewrite(s, Then(f, g))
    decreases |s|
  {
    if s == [] {
    } else if MarkerLen(s) > 0 {
      var n := MarkerLen(s);
      var m, rest := s[..n], Rewrite(s[n..], f);
      MarkerItself(s);
      RewriteFuses(s[n..], f, g);
      if f(m) == m {
        MarkerPasses(m, rest, g);
      } else {
        InertPasses(f(m), rest, g);
      }
    } else {
      NoNewMarker(s, f);
      var out := Rewrite(s, f);
      assert out == [s[0]] + Rewrite(s[1..], f);
      assert out[1..] == Rewrite(s[1..], f);
      RewriteFuses(s[1..], f, g);
    }
  }

  lemma {:induction false} RewriteSame(s: string, f: string -> string, g: string -> string)
    requires forall m :: IsMarker(m) ==> f(m) == g(m)
    ensures Rewrite(s, f) == Rewrite(s, g)
    decreases |s|
  {
    if s == [] {
    } else if MarkerLen(s) > 0 {
      MarkerItself(s);
      RewriteSame(s[MarkerLen(s)..], f, g);
    } else {
      RewriteSame(s[1..], f, g);
    }
  }

  lemma {:induction false} PlainReplace(p: string, t: string, what: string, sub: string)
    requires what != [] && what[0] == '[' && '[' !in p
    ensures ReplaceAll(p + t, what, sub) == p + ReplaceAll(t, what, sub)
  {
    if p == [] {
      assert p + t == t;
    } else {
      assert (p + t)[0] == p[0] && (p + t)[1..] == p[1..] + t;
      PlainReplace(p[1..], t, what, sub);
    }
  }

  function Only(tag: string, sub: string): string -> string {
    m => if m == tag then sub else m
  }

  /** A different marker is copied as it stands. */
  lemma {:induction false} OtherMarkerStays(m: string, t: string, tag: string, sub: string)
    requires IsMarker(tag) && IsMarker(m) && !(tag <= m + t)
    ensures ReplaceAll(m + t, tag, sub) == m + ReplaceAll(t, tag, sub)
    ensures m != tag
  {
    hide MarkerLen;
    MarkerShape(tag);
    MarkerShape(m);
    assert (m + t)[0] == m[0] && (m + t)[1..] == m[1..] + t;
    PlainReplace(m[1..], t, tag, sub);
    assert m == [m[0]] + m[1..];
  }

  /** Replacing one marker's text everywhere is a rewrite that singles that marker out. */
  lemma {:induction false} ReplaceIsRewrite(s: string, tag: string, sub: string)
    requires IsMarker(tag)
    ensures ReplaceAll(s, tag, sub) == Rewrite(s, Only(tag, sub))
    decreases |s|
  {
    hide MarkerLen;
    var f := Only(tag, sub);
    if s == [] {
    } else if tag <= s {
      assert s == tag + s[|tag|..];
      MarkerPasses(tag, s[|tag|..], f);
      ReplaceIsRewrite(s[|tag|..], tag, sub);
    } else if MarkerLen(s) > 0 {
      var m, t := s[..MarkerLen(s)], s[MarkerLen(s)..];
      MarkerItself(s);
      assert s == m + t;
      OtherMarkerStays(m, t, tag, sub);
      ReplaceIsRewrite(t, tag, sub);
    } else {
      ReplaceIsRewrite(s[1..], tag, sub);
    }
  }

  // ---------------------------------------------------------------------
  // What sanitising does
  // ---------------------------------------------------------------------

  function Verdict(nonce: string): string -> string {
    m => if m == OpenTag(nonce) || m == CloseTag(nonce) then ESCAPED else STRIPPED
  }

  /** Sanitising is one pass over the markers of the content: the request's own two become the escape
      text, all others the strip text, and every other character stays. */
  lemma {:induction false} SanitiseIsOnePass(content: string, nonce: string)
    requires HexNonce(nonce)
    ensures Sanitise(content, nonce) == Rewrite(content, Verdict(nonce))
  {
    hide MarkerLen, OpenTag, CloseTag, Rewrite, ReplaceAll;
    TagsAreMarkers(nonce);
    var open, close := OpenTag(nonce), CloseTag(nonce);
    var f, g, strip := Only(open, ESCAPED), Only(close, ESCAPED), (m: string) => STRIPPED;
    ReplaceIsRewrite(content, open, ESCAPED);
    ReplaceIsRewrite(ReplaceAll(content, open, ESCAPED), close, ESCAPED);
    assert Inert(ESCAPED);
    RewriteFuses(content, f, g);
    assert Tame(Then(f, g));
    RewriteFuses(content, Then(f, g), strip);
    EscapedIsNoMarker();
    RewriteSame(content, Then(Then(f, g), strip), Verdict(nonce));
  }

  lemma {:induction false} EscapedIsNoMarker()
    ensures !IsMarker(ESCAPED) && !IsMarker(STRIPPED)
  {
    hide MarkerLen;
    NotAMarker(ESCAPED);
    NotAMarker(STRIPPED);
  }

  /** Stripping changes nothing exactly when there is no marker. */
  lemma {:induction false} UnchangedIffNoMarkers(s: string, f: string -> string)
    requires forall m :: IsMarker(m) ==> Inert(f(m))
    ensures Rewrite(s, f) == s <==> NoMarkers(s)
  {
    hide MarkerLen;
    if s == [] {
    } else if MarkerLen(s) > 0 {
      MarkerItself(s);
      MarkerShape(s[..MarkerLen(s)]);
      assert s[0..] == s;
      assert Rewrite(s, f)[1] == f(s[..MarkerLen(s)])[1];
    } else {
      UnchangedIffNoMarkers(s[1..], f);
      assert Rewrite(s, f)[1..] == Rewrite(s[1..], f);
      assert s == [s[0]] + s[1..];
      if NoMarkers(s[1..]) {
        forall i | 0 <= i < |s| ensures MarkerLen(s[i..]) == 0 {
          if i > 0 { assert s[i..] == s[1..][i - 1..]; } else { assert s[i..] == s; }
        }
      } else {
        var i :| 0 <= i < |s| - 1 && MarkerLen(s[1..][i..]) != 0;
        assert s[i + 1..] == s[1..][i..];
      }
    }
  }

  lemma {:induction false} VerdictIsInert(nonce: string)
    ensures forall m :: IsMarker(m) ==> Inert(Verdict(nonce)(m)) && Verdict(nonce)(m) != m
  {
    hide IsMarker, MarkerLen, OpenTag, CloseTag;
    EscapedIsNoMarker();
    assert '[' !in ESCAPED[1..] && '[' !in STRIPPED[1..];
  }

  lemma {:induction false} StrippedHasNoMarkers(text: string)
    ensures NoMarkers(StripForeignMarkers(text))
  {
    hide MarkerLen;
    var f := (m: string) => STRIPPED;
    EscapedIsNoMarker();
    assert Inert(STRIPPED);
    RewriteFuses(text, f, f);
    RewriteSame(text, Then(f, f), f);
    UnchangedIffNoMarkers(Rewrite(text, f), f);
  }

  /** A sanitised body contains no begin or end marker of any nonce. */
  lemma {:induction false} SanitisedHasNoMarkers(content: string, nonce: string, h: string, i: nat)
    requires h != "" && forall k :: 0 <= k < |h| ==> '0' <= h[k] <= '9' || 'a' <= h[k] <= 'f' || 'A' <= h[k] <= 'F'
    requires i <= |Sanitise(content, nonce)|
    ensures !("[BEGIN-DATA:" + h + "]" <= Sanitise(content, nonce)[i..])
    ensures !("[END-DATA:" + h + "]" <= Sanitise(content, nonce)[i..])
  {
    hide Sanitise, MarkerLen;
    SanitisedNoMarkers(content, nonce);
    NoMarkersSpelled(Sanitise(content, nonce), h, i);
  }

  lemma {:induction false} SanitisedNoMarkers(content: string, nonce: string)
    ensures NoMarkers(Sanitise(content, nonce))
  {
    hide NoMarkers;
    StrippedHasNoMarkers(ReplaceAll(ReplaceAll(content, OpenTag(nonce), ESCAPED), CloseTag(nonce), ESCAPED));
  }

  lemma {:induction false} NoMarkersSpelled(s: string, h: string, i: nat)
    requires HexNonce(h) && i <= |s| && NoMarkers(s)
    ensures !("[BEGIN-DATA:" + h + "]" <= s[i..]) && !("[END-DATA:" + h + "]" <= s[i..])
  {
    hide MarkerLen;
    TagsAreMarkers(h);
    if OpenTag(h) <= s[i..] {
      assert s[i..] == OpenTag(h) + s[i..][|OpenTag(h)|..];
      MarkerPrefix(OpenTag(h), s[i..][|OpenTag(h)|..]);
    }
    if CloseTag(h) <= s[i..] {
      assert s[i..] == CloseTag(h) + s[i..][|CloseTag(h)|..];
      MarkerPrefix(CloseTag(h), s[i..][|CloseTag(h)|..]);
    }
  }

  /** A recognised marker is a head, one or more hex digits and a closing bracket. */
  lemma {:induction false} MarkerSpelled(s: string) returns (h: string)
    requires MarkerLen(s) > 0
    ensures HexNonce(h) && ("[BEGIN-DATA:" + h + "]" <= s || "[END-DATA:" + h + "]" <= s)
  {
    var head := if MarkerWith(s, BEGIN) > 0 then BEGIN else END;
    var n := HexRun(s[|head|..]);
    h := s[|head|..][..n];
    assert s[..|head| + n + 1] == head + h + "]";
  }

  /** What sanitising makes of a marker in the content, whatever stands around it. */
  lemma {:induction false} SanitiseMarker(a: string, begin: bool, h: string, b: string, nonce: string)
    requires nonce != "" && forall k :: 0 <= k < |nonce| ==>
               '0' <= nonce[k] <= '9' || 'a' <= nonce[k] <= 'f' || 'A' <= nonce[k] <= 'F'
    requires h != "" && forall k :: 0 <= k < |h| ==> '0' <= h[k] <= '9' || 'a' <= h[k] <= 'f' || 'A' <= h[k] <= 'F'
    ensures Sanitise(a + ((if begin then "[BEGIN-DATA:" else "[END-DATA:") + h + "]") + b, nonce)
            == Sanitise(a, nonce) + (if h == nonce then "[escaped-marker]" else "[stripped-marker]") + Sanitise(b, nonce)
  {
    hide Sanitise, Rewrite, MarkerLen;
    var m := if begin then OpenTag(h) else CloseTag(h);
    TagsAreMarkers(h);
    assert m == (if begin then "[BEGIN-DATA:" else "[END-DATA:") + h + "]";
    SanitiseIsOnePass(a + m + b, nonce);
    SanitiseIsOnePass(a, nonce);
    SanitiseIsOnePass(b, nonce);
    RewriteAround(a, m, b, Verdict(nonce));
    VerdictSpelled(h, nonce);
  }

  lemma {:induction false} VerdictSpelled(h: string, nonce: string)
    ensures Verdict(nonce)(OpenTag(h)) == (if h == nonce then "[escaped-marker]" else "[stripped-marker]")
    ensures Verdict(nonce)(CloseTag(h)) == (if h == nonce then "[escaped-marker]" else "[stripped-marker]")
  {
    hide OpenTag, CloseTag;
    TagsDiffer(h, nonce);
    TagsDiffer(nonce, h);
  }

  lemma {:induction false} TagsDiffer(h: string, nonce: string)
    ensures OpenTag(h) != CloseTag(nonce)
    ensures OpenTag(h) == OpenTag(nonce) <==> h == nonce
    ensures CloseTag(h) == CloseTag(nonce) <==> h == nonce
  {
    assert OpenTag(h)[1] != CloseTag(nonce)[1];
    if OpenTag(h) == OpenTag(nonce) {
      assert OpenTag(h)[|BEGIN|..|OpenTag(h)| - 1] == h && OpenTag(nonce)[|BEGIN|..|OpenTag(nonce)| - 1] == nonce;
    }
    if CloseTag(h) == CloseTag(nonce) {
      assert CloseTag(h)[|END|..|CloseTag(h)| - 1] == h && CloseTag(nonce)[|END|..|CloseTag(nonce)| - 1] == nonce;
    }
  }

  /** A marker splits a rewrite: nothing in front of it can swallow its opening bracket. */
  lemma {:induction false} RewriteAround(a: string, m: string, b: string, f: string -> string)
    requires IsMarker(m)
    ensures Rewrite(a + m + b, f) == Rewrite(a, f) + f(m) + Rewrite(b, f)
    decreases |a|
  {
    hide MarkerLen;
    var s := a + m + b;
    if a == [] {
      assert s == m + b;
      MarkerPasses(m, b, f);
    } else if MarkerLen(a) > 0 {
      var n := MarkerLen(a);
      MarkerItself(a);
      assert s == a[..n] + (a[n..] + m + b) && a == a[..n] + a[n..];
      MarkerPasses(a[..n], a[n..] + m + b, f);
      RewriteAround(a[n..], m, b, f);
    } else {
      StartsInFront(a, m, b);
      assert s[0] == a[0] && s[1..] == a[1..] + m + b;
      RewriteAround(a[1..], m, b, f);
    }
  }

  lemma {:induction false} StartsInFront(a: string, m: string, b: string)
    requires IsMarker(m) && a != [] && MarkerLen(a) == 0
    ensures MarkerLen(a + m + b) == 0
  {
    hide MarkerLen;
    var s := a + m + b;
    var n := MarkerLen(s);
    if n > 0 {
      MarkerItself(s);
      MarkerShape(s[..n]);
      MarkerShape(m);
      forall k | 0 < k < n ensures s[k] != '[' {
        assert s[..n][1..][k - 1] == s[k];
      }
      assert s[|a|] == m[0] == '[';
      assert a == s[..n] + a[n..];
      MarkerPrefix(s[..n], a[n..]);
    }
  }

  /** A wrapped body holds two markers: the begin marker in front and the end marker at the back. */
  lemma {:induction false} WrapHoldsTwoMarkers(content: string, nonce: string, h: string, i: nat)
    requires nonce != "" && forall k :: 0 <= k < |nonce| ==>
               '0' <= nonce[k] <= '9' || 'a' <= nonce[k] <= 'f' || 'A' <= nonce[k] <= 'F'
    requires h != "" && forall k :: 0 <= k < |h| ==> '0' <= h[k] <= '9' || 'a' <= h[k] <= 'f' || 'A' <= h[k] <= 'F'
    requires i <= |WrapUntrusted(content, nonce)|
    ensures "[BEGIN-DATA:" + h + "]" <= WrapUntrusted(content, nonce)[i..] <==> h == nonce && i == 0
    ensures "[END-DATA:" + h + "]" <= WrapUntrusted(content, nonce)[i..]
            <==> h == nonce && i + |"[END-DATA:" + nonce + "]"| == |WrapUntrusted(content, nonce)|
  {
    hide Sanitise, MarkerLen, NoMarkers;
    SanitisedNoMarkers(content, nonce);
    TwoMarkers(Sanitise(content, nonce), nonce, h, i);
  }

  lemma {:induction false} TwoMarkers(body: string, nonce: string, h: string, i: nat)
    requires HexNonce(nonce) && HexNonce(h) && NoMarkers(body)
    requires i <= |OpenTag(nonce) + "\n" + body + "\n" + CloseTag(nonce)|
    ensures var text := OpenTag(nonce) + "\n" + body + "\n" + CloseTag(nonce);
            && (OpenTag(h) <= text[i..] <==> h == nonce && i == 0)
            && (CloseTag(h) <= text[i..] <==> h == nonce && i + |CloseTag(nonce)| == |text|)
  {
    hide MarkerLen, OpenTag, CloseTag, HexNonce, NoMarkers;
    TagsAreMarkers(h);
    TagsAreMarkers(nonce);
    TagsDiffer(h, nonce);
    TagsDiffer(nonce, h);
    MarkersInWrap(body, nonce, OpenTag(h), i);
    MarkersInWrap(body, nonce, CloseTag(h), i);
  }

  lemma {:induction false} MarkersInWrap(body: string, nonce: string, m: string, i: nat)
    requires IsMarker(m) && IsMarker(OpenTag(nonce)) && IsMarker(CloseTag(nonce)) && NoMarkers(body)
    requires i <= |OpenTag(nonce) + "\n" + body + "\n" + CloseTag(nonce)|
    ensures var text := OpenTag(nonce) + "\n" + body + "\n" + CloseTag(nonce);
            m <= text[i..] <==> (i == 0 && m == OpenTag(nonce)) || (i + |CloseTag(nonce)| == |text| && m == CloseTag(nonce))
  {
    hide MarkerLen, OpenTag, CloseTag;
    var open, close := OpenTag(nonce), CloseTag(nonce);
    var text := open + "\n" + body + "\n" + close;
    var at := |open| + 1;
    MarkerShape(m);
    MarkerShape(open);
    MarkerShape(close);
    assert text[0..] == text && open <= text;
    assert text[at + |body| + 1..] == close;
    if m <= text[i..] {
      assert forall k :: 0 <= k < |m| ==> text[i + k] == text[i..][k] == m[k];
      assert text[i..] == m + text[i..][|m|..];
      assert text[|open|] == '\n' && text[at + |body|] == '\n';
      MarkerPrefix(m, text[i..][|m|..]);
      if i < |open| {
        assert open[i] == text[i] == '[';
        assert text == open + text[|open|..];
        MarkerPrefix(open, text[|open|..]);
        assert m == text[..|m|];
      } else if i < at + |body| + 1 {
        assert i >= at && i + |m| <= at + |body|;
        assert body[i - at..] == m + body[i - at + |m|..];
        MarkerPrefix(m, body[i - at + |m|..]);
      } else {
        assert text[i] == close[i - (at + |body| + 1)] == '[';
        MarkerLenWhole(close);
        assert text[i..] == close;
      }
    }
  }

  lemma {:induction false} MarkerLenWhole(m: string)
    requires IsMarker(m)
    ensures MarkerLen(m + []) == |m|
  {
    MarkerPrefix(m, []);
  }

  /** A begin or end marker around the hex digits h, at position i. */
  ghost predicate MarkerAt(s: string, h: string, i: nat) {
    && i <= |s|
    && ("[BEGIN-DATA:" + h + "]" <= s[i..] || "[END-DATA:" + h + "]" <= s[i..])
    && h != ""
    && forall k :: 0 <= k < |h| ==> '0' <= h[k] <= '9' || 'a' <= h[k] <= 'f' || 'A' <= h[k] <= 'F'
  }

  /** Content comes back unchanged exactly when no marker occurs in it. */
  lemma {:induction false} SanitiseUnchangedIff(content: string, nonce: string)
    requires nonce != "" && forall k :: 0 <= k < |nonce| ==>
               '0' <= nonce[k] <= '9' || 'a' <= nonce[k] <= 'f' || 'A' <= nonce[k] <= 'F'
    ensures Sanitise(content, nonce) == content <==> forall h, i :: !MarkerAt(content, h, i)
  {
    hide MarkerLen, Sanitise, NoMarkers, MarkerAt;
    UnchangedIff(content, nonce);
    if NoMarkers(content) {
      forall h, i: nat ensures !MarkerAt(content, h, i) {
        HoldsNone(content, h, i);
      }
    } else {
      var h, i := SomeMarker(content);
    }
  }

  lemma {:induction false} HoldsNone(s: string, h: string, i: nat)
    requires NoMarkers(s)
    ensures !MarkerAt(s, h, i)
  {
    hide MarkerLen, NoMarkers;
    if HexNonce(h) && i <= |s| {
      NoMarkersSpelled(s, h, i);
    }
  }

  lemma {:induction false} SomeMarker(s: string) returns (h: string, i: nat)
    requires !NoMarkers(s)
    ensures MarkerAt(s, h, i)
  {
    hide MarkerLen;
    i :| 0 <= i < |s| && MarkerLen(s[i..]) != 0;
    h := MarkerSpelled(s[i..]);
    forall k | 0 <= k < |h| ensures IsHex(h[k]) {
      assert h[k] in h;
    }
  }

  lemma {:induction false} UnchangedIff(content: string, nonce: string)
    requires HexNonce(nonce)
    ensures Sanitise(content, nonce) == content <==> NoMarkers(content)
  {
    SanitiseIsOnePass(content, nonce);
    VerdictIsInert(nonce);
    UnchangedIffNoMarkers(content, Verdict(nonce));
  }

  /** Sanitising again, under the same or another nonce, changes nothing. */
  lemma {:induction false} SanitiseIdempotent(content: string, nonce: string, other: string)
    requires HexNonce(other)
    ensures Sanitise(Sanitise(content, nonce), other) == Sanitise(content, nonce)
  {
    SanitisedNoMarkers(content, nonce);
    UnchangedIff(Sanitise(content, nonce), other);
  }

  // ---------------------------------------------------------------------
  // Printing and parsing a list of chunks
  // ---------------------------------------------------------------------

  datatype SyllabusChunk = SyllabusChunk(courseId: string, content: string)

  function ChunkText(ch: SyllabusChunk): string {
    "[" + ch.courseId + "] " + ch.content
  }

  function Header(n: nat): string {
    "Retrieved " + Decimal(n) + " syllabus excerpt(s):"
  }

  /** The wrapped chunks, each on new lines. */
  function Wrapped(chunks: seq<SyllabusChunk>, nonce: string): string {
    if chunks == [] then [] else
      "\n" + WrapUntrusted(ChunkText(chunks[0]), nonce) + Wrapped(chunks[1..], nonce)
  }

  function FormatChunks(chunks: seq<SyllabusChunk>, nonce: string): string {
    Header(|chunks|) + Wrapped(chunks, nonce)
  }

  /** The heading and the wrapped chunks, joined by newlines. */
  method FormatLines(chunks: seq<SyllabusChunk>, nonce: string) returns (text: string)
    ensures text == FormatChunks(chunks, nonce)
  {
    text := Header(|chunks|);
    assert chunks[0..] == chunks;
    for i := 0 to |chunks|
      invariant text + Wrapped(chunks[i..], nonce) == FormatChunks(chunks, nonce)
    {
      var line := WrapUntrusted(ChunkText(chunks[i]), nonce);
      assert chunks[i..][1..] == chunks[i + 1..];
      assert Wrapped(chunks[i..], nonce) == "\n" + line + Wrapped(chunks[i + 1..], nonce);
      assert text + ("\n" + line + Wrapped(chunks[i + 1..], nonce)) == text + "\n" + line + Wrapped(chunks[i + 1..], nonce);
      text := text + "\n" + line;
    }
    assert text + [] == text;
  }

  /** Position of the first occurrence, or the length if there is none. */
  function Find(s: string, what: string): (i: nat)
    ensures i <= |s|
    ensures i < |s| && what != [] ==> what <= s[i..]
  {
    if s == [] || what <= s then 0 else 1 + Find(s[1..], what)
  }

  /** A reader that knows only the nonce: the text between an open tag and the next close tag, without
      the newline on either side, over and over. */
  function Parse(text: string, nonce: string): seq<string>
    decreases |text|
  {
    var i := Find(text, OpenTag(nonce));
    if i == |text| then [] else
      var rest := text[i + |OpenTag(nonce)|..];
      var j := Find(rest, CloseTag(nonce));
      if j == |rest| || j < 2 then [] else
        [rest[1..j - 1]] + Parse(rest[j + |CloseTag(nonce)|..], nonce)
  }

  lemma {:induction false} FindAfterPlain(p: string, what: string, rest: string)
    requires what != [] && what[0] == '[' && '[' !in p
    ensures Find(p + what + rest, what) == |p|
  {
    if p == [] {
      assert p + what + rest == what + rest;
    } else {
      assert (p + what + rest)[0] == p[0] && (p + what + rest)[1..] == p[1..] + what + rest;
      FindAfterPlain(p[1..], what, rest);
    }
  }

  /** The first close tag after a marker-free body is the one that was put there. */
  lemma {:induction false} FindAfterBody(body: string, tag: string, rest: string)
    requires IsMarker(tag) && NoMarkers(body)
    ensures Find(body + "\n" + tag + rest, tag) == |body| + 1
  {
    hide MarkerLen;
    var text := body + "\n" + tag + rest;
    assert text[|body|] == '\n';
    MarkerShape(tag);
    if body == [] {
      assert text == "\n" + tag + rest;
      FindAfterPlain("\n", tag, rest);
    } else {
      assert text[1..] == body[1..] + "\n" + tag + rest;
      forall i | 0 <= i < |body| - 1 ensures MarkerLen(body[1..][i..]) == 0 {
        assert body[1..][i..] == body[i + 1..];
      }
      FindAfterBody(body[1..], tag, rest);
      if tag <= text {
        if |tag| <= |body| {
          assert body[0..] == body && body == tag + body[|tag|..] by {
            assert forall k :: 0 <= k < |tag| ==> body[k] == text[k] == tag[k];
          }
          MarkerPrefix(tag, body[|tag|..]);
        }
      }
    }
  }

  /** The sanitised bodies of the chunks, in order. */
  function Bodies(chunks: seq<SyllabusChunk>, nonce: string): (bodies: seq<string>)
    ensures |bodies| == |chunks|
    ensures forall i :: 0 <= i < |chunks| ==> bodies[i] == Sanitise(ChunkText(chunks[i]), nonce)
  {
    if chunks == [] then [] else [Sanitise(ChunkText(chunks[0]), nonce)] + Bodies(chunks[1..], nonce)
  }

  lemma {:induction false} WrappedFirst(chunks: seq<SyllabusChunk>, nonce: string, lead: string)
    requires chunks != []
    ensures lead + Wrapped(chunks, nonce)
            == (lead + "\n") + OpenTag(nonce) + "\n" + Sanitise(ChunkText(chunks[0]), nonce) + "\n" + CloseTag(nonce)
               + Wrapped(chunks[1..], nonce)
  {
    hide OpenTag, CloseTag, Sanitise, ChunkText;
    var w, more := WrapUntrusted(ChunkText(chunks[0]), nonce), Wrapped(chunks[1..], nonce);
    assert Wrapped(chunks, nonce) == "\n" + w + more;
    assert lead + ("\n" + w + more) == (lead + "\n") + w + more;
  }

  lemma {:induction false} ParseWrapped(chunks: seq<SyllabusChunk>, nonce: string, lead: string)
    requires HexNonce(nonce) && '[' !in lead
    ensures Parse(lead + Wrapped(chunks, nonce), nonce)
            == Bodies(chunks, nonce)
    decreases |chunks|
  {
    hide OpenTag, MarkerLen, CloseTag, Parse, Sanitise, ChunkText;
    if chunks == [] {
      TagsAreMarkers(nonce);
      MarkerShape(OpenTag(nonce));
      assert lead + Wrapped(chunks, nonce) == lead;
      ParseNothing(lead, nonce);
    } else {
      var body, more := Sanitise(ChunkText(chunks[0]), nonce), Wrapped(chunks[1..], nonce);
      SanitisedNoMarkers(ChunkText(chunks[0]), nonce);
      WrappedFirst(chunks, nonce, lead);
      ParseOne(lead + "\n", body, more, nonce);
      ParseWrapped(chunks[1..], nonce, "");
      assert "" + more == more;
    }
  }

  lemma {:induction false} ParseNothing(text: string, nonce: string)
    requires Find(text, OpenTag(nonce)) == |text|
    ensures Parse(text, nonce) == []
  {
  }

  /** The parser takes one wrapped body off the front. */
  lemma {:induction false} ParseOne(lead: string, body: string, more: string, nonce: string)
    requires HexNonce(nonce) && '[' !in lead && NoMarkers(body)
    ensures Parse(lead + OpenTag(nonce) + "\n" + body + "\n" + CloseTag(nonce) + more, nonce)
            == [body] + Parse(more, nonce)
  {
    hide NoMarkers, IsMarker, Find, HexNonce, MarkerLen, OpenTag, CloseTag;
    var open, close := OpenTag(nonce), CloseTag(nonce);
    TagsAreMarkers(nonce);
    MarkerShape(open);
    MarkerShape(close);
    var text := lead + open + "\n" + body + "\n" + close + more;
    var tail := "\n" + body + "\n" + close + more;
    assert text == lead + open + tail;
    FindAfterPlain(lead, open, tail);
    assert text[|lead| + |open|..] == tail;
    FindAfterBody(body, close, more);
    assert tail == "\n" + (body + "\n" + close + more);
    FindPastNewline(body + "\n" + close + more, close);
    assert tail[1..|body| + 1] == body;
    assert tail[|body| + 2 + |close|..] == more;
  }

  lemma {:induction false} FindPastNewline(s: string, tag: string)
    requires tag != [] && tag[0] == '['
    ensures Find("\n" + s, tag) == 1 + Find(s, tag)
  {
    assert ("\n" + s)[0] == '\n' && ("\n" + s)[1..] == s;
  }

  /** Round trip: parsing the formatted text recovers exactly the sanitised bodies, in order. */
  lemma {:induction false} FormatRoundTrip(chunks: seq<SyllabusChunk>, nonce: string)
    requires nonce != "" && forall k :: 0 <= k < |nonce| ==>
               '0' <= nonce[k] <= '9' || 'a' <= nonce[k] <= 'f' || 'A' <= nonce[k] <= 'F'
    ensures var bodies := Parse(FormatChunks(chunks, nonce), nonce);
            && |bodies| == |chunks|
            && forall i :: 0 <= i < |chunks| ==>
                 bodies[i] == Sanitise("[" + chunks[i].courseId + "] " + chunks[i].content, nonce)
  {
    hide Parse, Sanitise;
    DecimalReads(|chunks|);
    ParseWrapped(chunks, nonce, Header(|chunks|));
  }

  /** The text handed on, chunk by chunk: a heading with the count, then each chunk between its markers. */
  lemma {:induction false} FormatSpelled(chunks: seq<SyllabusChunk>, ch: SyllabusChunk, nonce: string)
    ensures FormatChunks([], nonce) == "Retrieved 0 syllabus excerpt(s):"
    ensures FormatChunks(chunks, nonce) == "Retrieved " + Decimal(|chunks|) + " syllabus excerpt(s):" + Wrapped(chunks, nonce)
    ensures Wrapped(chunks + [ch], nonce)
            == Wrapped(chunks, nonce)
               + ("\n[BEGIN-DATA:" + nonce + "]\n" + Sanitise("[" + ch.courseId + "] " + ch.content, nonce)
                  + "\n[END-DATA:" + nonce + "]")
  {
    hide Sanitise, Wrapped;
    EmptyFormat(nonce);
    WrappedLast(chunks, ch, nonce);
    WrapSpelled(ch, nonce);
    assert Wrapped(chunks, nonce) + ("\n" + WrapUntrusted(ChunkText(ch), nonce)) == Wrapped(chunks + [ch], nonce);
  }

  lemma {:induction false} EmptyFormat(nonce: string)
    ensures FormatChunks([], nonce) == "Retrieved 0 syllabus excerpt(s):"
  {
    assert Decimal(0) == "0";
  }

  lemma {:induction false} WrapSpelled(ch: SyllabusChunk, nonce: string)
    ensures "\n" + WrapUntrusted(ChunkText(ch), nonce)
            == "\n[BEGIN-DATA:" + nonce + "]\n" + Sanitise("[" + ch.courseId + "] " + ch.content, nonce)
               + "\n[END-DATA:" + nonce + "]"
  {
    hide Sanitise;
    var body := Sanitise("[" + ch.courseId + "] " + ch.content, nonce);
    assert "\n" + (BEGIN + nonce + "]" + "\n" + body + "\n" + (END + nonce + "]"))
           == "\n[BEGIN-DATA:" + nonce + "]\n" + body + "\n[END-DATA:" + nonce + "]";
  }

  lemma {:induction false} WrappedLast(chunks: seq<SyllabusChunk>, ch: SyllabusChunk, nonce: string)
    ensures Wrapped(chunks + [ch], nonce) == Wrapped(chunks, nonce) + ("\n" + WrapUntrusted(ChunkText(ch), nonce))
  {
    hide WrapUntrusted, ChunkText;
    if chunks == [] {
      assert [ch][1..] == [];
      assert [] + [ch] == [ch];
    } else {
      assert (chunks + [ch])[1..] == chunks[1..] + [ch];
      WrappedLast(chunks[1..], ch, nonce);
    }
  }
}
