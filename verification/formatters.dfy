/**
 * HTML output for tokenised wikitext, after
 * libs/wikitext/src/parsers/formatters.rs: link targets (`format_links`),
 * the embed rewriters for media hosts, and `collapse_to`, which appends an
 * element's HTML to a target string.
 */
module Formatters {
  import opened Strings
  import opened BlockParser

  // ---------------------------------------------------------------------
  // Percent-encoding (section 2.1 of RFC 3986), as the `urlencoding` crate
  // applies it: every byte of the UTF-8 form except the unreserved
  // characters becomes '%' and two upper-case hex digits.

  predicate Unreserved(c: char) {
    ('A' <= c <= 'Z') || ('a' <= c <= 'z') || ('0' <= c <= '9') || c == '-' || c == '.' || c == '_' || c == '~'
  }

  function HexDigit(n: nat): (d: char)
    requires n < 16
    ensures ('0' <= d <= '9') || ('A' <= d <= 'F')
  {
    if n < 10 then ('0' as int + n) as char else ('A' as int + n - 10) as char
  }

  function Percent(b: nat): (r: string)
    requires b < 256
    ensures |r| == 3 && r[0] == '%'
  {
    ['%', HexDigit(b / 16), HexDigit(b % 16)]
  }

  /** The UTF-8 bytes of one character. */
  function Utf8(c: char): (bytes: seq<nat>)
    ensures 1 <= |bytes| <= 4
    ensures forall k :: 0 <= k < |bytes| ==> bytes[k] < 256
    ensures c as int < 128 ==> bytes == [c as int]
  {
    var n := c as int;
    if n < 0x80 then [n]
    else if n < 0x800 then [0xC0 + n / 0x40, 0x80 + n % 0x40]
    else if n < 0x10000 then [0xE0 + n / 0x1000, 0x80 + (n / 0x40) % 0x40, 0x80 + n % 0x40]
    else [0xF0 + n / 0x40000, 0x80 + (n / 0x1000) % 0x40, 0x80 + (n / 0x40) % 0x40, 0x80 + n % 0x40]
  }

  /** The UTF-8 bytes of a string: those of its characters, in order. */
  function Utf8String(s: string): (bytes: seq<nat>)
    ensures |bytes| >= |s|
    ensures forall k :: 0 <= k < |bytes| ==> bytes[k] < 256
  {
    if s == [] then [] else Utf8(s[0]) + Utf8String(s[1..])
  }

  /** One byte: an unreserved ASCII character stays, anything else becomes "%XX". */
  function EncodeByte(b: nat): (r: string)
    requires b < 256
    ensures b < 128 && Unreserved(b as char) ==> r == [b as char]
    ensures !(b < 128 && Unreserved(b as char)) ==> r == Percent(b)
  {
    if b < 128 && Unreserved(b as char) then [b as char] else Percent(b)
  }

  function EncodeBytes(bytes: seq<nat>): (r: string)
    requires forall k :: 0 <= k < |bytes| ==> bytes[k] < 256
    ensures |r| >= |bytes|
  {
    if bytes == [] then [] else EncodeByte(bytes[0]) + EncodeBytes(bytes[1..])
  }

  /** `urlencoding::encode`: every byte of the UTF-8 form, one at a time. */
  function Encode(s: string): (r: string)
    ensures |r| >= |s|
  {
    EncodeBytes(Utf8String(s))
  }

  /** Only unreserved characters and '%' escapes come out of `Encode`: in particular no space. */
  lemma EncodeSafe(s: string)
    ensures forall k :: 0 <= k < |Encode(s)| ==> Unreserved(Encode(s)[k]) || Encode(s)[k] == '%' || ('A' <= Encode(s)[k] <= 'F') || ('0' <= Encode(s)[k] <= '9')
  {
    EncodeBytesSafe(Utf8String(s));
  }

  lemma {:induction false} EncodeBytesSafe(bytes: seq<nat>)
    requires forall k :: 0 <= k < |bytes| ==> bytes[k] < 256
    ensures forall k :: 0 <= k < |EncodeBytes(bytes)| ==>
              var e := EncodeBytes(bytes)[k];
              Unreserved(e) || e == '%' || ('A' <= e <= 'F') || ('0' <= e <= '9')
  {
    if bytes != [] {
      EncodeBytesSafe(bytes[1..]);
    }
  }

  /** The UTF-8 form of a concatenation is the concatenation of the forms. */
  lemma {:induction false} Utf8StringAppend(a: string, b: string)
    ensures Utf8String(a + b) == Utf8String(a) + Utf8String(b)
  {
    if a != [] {
      Utf8StringAppend(a[1..], b);
      assert (a + b)[0] == a[0] && (a + b)[1..] == a[1..] + b;
    } else {
      assert a + b == b;
    }
  }

  /** Bytes are encoded one at a time. */
  lemma {:induction false} EncodeBytesAppend(x: seq<nat>, y: seq<nat>)
    requires forall k :: 0 <= k < |x| ==> x[k] < 256
    requires forall k :: 0 <= k < |y| ==> y[k] < 256
    ensures EncodeBytes(x + y) == EncodeBytes(x) + EncodeBytes(y)
  {
    if x != [] {
      EncodeBytesAppend(x[1..], y);
      assert (x + y)[0] == x[0] && (x + y)[1..] == x[1..] + y;
    } else {
      assert x + y == y;
    }
  }

  lemma EncodeAppend(a: string, b: string)
    ensures Encode(a + b) == Encode(a) + Encode(b)
  {
    Utf8StringAppend(a, b);
    EncodeBytesAppend(Utf8String(a), Utf8String(b));
  }

  /** A string of unreserved characters encodes to itself. */
  lemma {:induction false} EncodeUnreserved(s: string)
    requires forall k :: 0 <= k < |s| ==> Unreserved(s[k])
    ensures Encode(s) == s
  {
    if s != [] {
      EncodeUnreserved(s[1..]);
      var c := s[0];
      assert Utf8String(s) == [c as int] + Utf8String(s[1..]);
      EncodeBytesAppend([c as int], Utf8String(s[1..]));
      assert EncodeBytes([c as int]) == [c];
      assert s == [c] + s[1..];
    }
  }

  // ---------------------------------------------------------------------
  // format_links

  /** `link` is `name` itself or starts with `name` and a ':'. */
  predicate HasScheme(link: string, name: string) {
    link == name || StartsWith(link, name + ":")
  }

  /** The piece of `s` before its first ':' is `name` exactly when `s` has that scheme. */
  lemma SchemeOf(s: string, name: string)
    requires ':' !in name
    ensures Split(s, ":")[0] == name <==> HasScheme(s, name)
  {
    var n := |name|;
    match Find(s, ":")
    case None =>
      assert !OccursAt(s, ":", n);
      assert !StartsWith(s, name + ":") by {
        if n + 1 <= |s| {
          assert s[..n + 1][n..] == s[n..n + 1];
        }
      }
    case Some(i) =>
      assert s[i..i + 1] == ":";
      assert s != name by {
        assert s[i] == ':';
      }
      if s[..i] == name {
        assert s[..n + 1] == name + ":";
      }
      if StartsWith(s, name + ":") {
        assert OccursAt(s, ":", n) by {
          assert s[n..n + 1] == s[..n + 1][n..];
        }
        forall j | 0 <= j < n
          ensures !OccursAt(s, ":", j)
        {
          assert s[j] == s[..n + 1][j];
          assert s[j..j + 1] == [s[j]];
        }
        assert i == n;
        assert s[..n] == s[..n + 1][..n];
      }
  }

  /** A string whose first character differs from that of `p` does not start with `p`. */
  lemma NotStartsWith(s: string, p: string)
    requires p != [] && s != [] && s[0] != p[0]
    ensures !StartsWith(s, p)
  {
    if |p| <= |s| {
      assert s[..|p|][0] == s[0];
    }
  }

  /**
   * `format_links`: http and https links stay as they are, "files:x" becomes
   * "/files/" and the encoded x, anything else "/" and the encoded link.  A
   * bare "files" makes the source's `unwrap` fail, so it is excluded.
   */
  function FormatLinks(link: string): (r: string)
    requires link != "files"
    ensures HasScheme(link, "http") || HasScheme(link, "https") ==> r == link
    ensures HasScheme(link, "files") ==> StartsWith(link, "files:") && r == "/files/" + Encode(link[6..])
    ensures !HasScheme(link, "http") && !HasScheme(link, "https") && !HasScheme(link, "files") ==> r == "/" + Encode(link)
  {
    SchemeOf(link, "http");
    SchemeOf(link, "https");
    SchemeOf(link, "files");
    var proto := Split(link, ":")[0];
    if proto == "http" || proto == "https" then link
    else if proto == "files" then "/files/" + Encode(link[|"files:"|..])
    else "/" + Encode(link)
  }

  lemma FormatLinksHttpsExample(link: string)
    requires link == "https://example.com"
    ensures FormatLinks(link) == link
  {
    assert StartsWith(link, "https" + ":") by {
      assert link[..6] == "https:";
    }
  }

  lemma EncodeSpace()
    ensures Encode(" ") == "%20"
  {
    assert Utf8String(" ") == [32];
    assert EncodeBytes([32]) == Percent(32) + EncodeBytes([]);
  }

  /** An unreserved word followed by a space: the word is kept and the space becomes "%20". */
  lemma EncodeWordSpace(w: string, rest: string)
    requires forall k :: 0 <= k < |w| ==> Unreserved(w[k])
    ensures Encode(w + " " + rest) == w + "%20" + Encode(rest)
  {
    EncodeAppend(w + " ", rest);
    EncodeAppend(w, " ");
    EncodeUnreserved(w);
    EncodeSpace();
  }

  /** The page name of the source's test, "My Cool Page", word by word. */
  lemma EncodePageExample(a: string, b: string, c: string)
    requires a == "My" && b == "Cool" && c == "Page"
    ensures Encode(a + " " + b + " " + c) == a + "%20" + b + "%20" + c
  {
    PageWords(a, b, c);
    assert a + " " + b + " " + c == a + " " + (b + " " + c);
    EncodeWordSpace(a, b + " " + c);
    EncodeWordSpace(b, c);
    EncodeUnreserved(c);
  }

  lemma PageWords(a: string, b: string, c: string)
    requires a == "My" && b == "Cool" && c == "Page"
    ensures forall k :: 0 <= k < |a| ==> Unreserved(a[k])
    ensures forall k :: 0 <= k < |b| ==> Unreserved(b[k])
    ensures forall k :: 0 <= k < |c| ==> Unreserved(c[k])
  {
  }

  /** A page name is encoded: spaces become "%20". */
  lemma FormatLinksPageExample(a: string, b: string, c: string)
    requires a == "My" && b == "Cool" && c == "Page"
    ensures FormatLinks(a + " " + b + " " + c) == "/" + a + "%20" + b + "%20" + c
  {
    var page := a + " " + b + " " + c;
    assert page[0] == 'M';
    NotStartsWith(page, "http:");
    NotStartsWith(page, "https:");
    NotStartsWith(page, "files:");
    EncodePageExample(a, b, c);
  }

  // ---------------------------------------------------------------------
  // The embed rewriters

  /** The three iframe openings the embed rewriters use. */
  datatype Frame = MediaFrame | SandboxFrame | PenFrame

  /** The opening tag, with its attributes, of each iframe. */
  function FrameTag(frame: Frame): string {
    match frame
    case MediaFrame => "<iframe title=\"Video player\" frameborder=\"0\" allow=\"accelerometer; autoplay; clipboard-write; encrypted-media; gyroscope; picture-in-picture\" allowfullscreen"
    case SandboxFrame => "<iframe frameborder=\"0\" title=\"Code Sandbox\" allow=\"accelerometer; ambient-light-sensor;\n    camera; encrypted-media; geolocation; gyroscope; hid; microphone; midi; payment; usb; vr;\n    xr-spatial-tracking\" sandbox=\"allow-forms allow-modals allow-popups allow-presentation\n    allow-same-origin allow-scripts\""
    case PenFrame => "<iframe frameborder=\"0\" title=\"CodePen\" scrolling=\"no\" allowtransparency=\"true\" allowfullscreen=\"true\" loading=\"lazy\""
  }

  /** An iframe opening `frame` whose source is `src`. */
  function Embed(frame: Frame, src: string): string {
    FrameTag(frame) + " src=\"" + src + "\"></iframe>"
  }

  function TransformAudioUrl(text: string): (r: string)
    ensures StartsWith(r, "<audio src=\"") && EndsWith(r, "\" controls></audio>")
  {
    "<audio src=\"" + text + "\" controls></audio>"
  }

  /** The CodeSandbox link with every ".io/s" made ".io/embed"; a link without one is kept. */
  function CsSrc(link: string): (r: string)
    ensures !Contains(link, ".io/s") ==> r == link
  {
    var src := ReplaceAll(link, ".io/s", ".io/embed");
    assert !Contains(link, ".io/s") ==> src == link by {
      if !Contains(link, ".io/s") {
        ReplaceAllAbsent(link, ".io/s", ".io/embed");
      }
    }
    src
  }

  function TransformCsUrl(link: string): string {
    Embed(SandboxFrame, CsSrc(link))
  }

  /** The CodePen link: "/pen/" becomes "/embed/" unless the link already has "/embed/". */
  function CpSrc(text: string): (r: string)
    ensures Contains(text, "/embed/") ==> r == text
  {
    if !Contains(text, "/embed/") then ReplaceAll(text, "/pen/", "/embed/") else text
  }

  function TransformCpUrl(text: string): string {
    Embed(PenFrame, CpSrc(text))
  }

  /** The Spotify link: ".com/track" becomes ".com/embed/track" unless the link has ".com/embed". */
  function SpotifySrc(text: string): (r: string)
    ensures Contains(text, ".com/embed") ==> r == text
  {
    if !Contains(text, ".com/embed") then ReplaceAll(text, ".com/track", ".com/embed/track") else text
  }

  function TransformSpotifyUrl(text: string): string {
    Embed(MediaFrame, SpotifySrc(text))
  }

  /** The Vimeo link: "vimeo.com" becomes "player.vimeo.com/video" unless the link has "player.vimeo.com". */
  function VimeoSrc(text: string): (r: string)
    ensures Contains(text, "player.vimeo.com") ==> r == text
  {
    if !Contains(text, "player.vimeo.com") then ReplaceAll(text, "vimeo.com", "player.vimeo.com/video") else text
  }

  function TransformVimeoUrl(text: string): string {
    Embed(MediaFrame, VimeoSrc(text))
  }

  /** The YouTube link: a watch link or a youtu.be short link becomes an embed link; others are kept. */
  function YoutubeSrc(link: string): (r: string)
    ensures !Contains(link, "watch?v=") && (Contains(link, "embed") || !Contains(link, ".be")) ==> r == link
  {
    if Contains(link, "watch?v=") then
      var f := ReplaceAll(link, "watch?v=", "embed/");
      if Contains(f, "&") then ReplaceFirst(f, "&", "?") else f
    else if !Contains(link, "embed") && Contains(link, ".be") then
      ReplaceAll(link, ".be/", "be.com/embed/")
    else link
  }

  function TransformYoutubeUrl(link: string): string {
    Embed(MediaFrame, YoutubeSrc(link))
  }

  /** `p` has no occurrence in `s` when its first character is not in `s`. */
  lemma AbsentByFirst(s: string, p: string)
    requires p != [] && p[0] !in s
    ensures !Contains(s, p)
  {
    forall i | 0 <= i <= |s|
      ensures !OccursAt(s, p, i)
    {
      if i + |p| <= |s| {
        assert s[i..i + |p|][0] == s[i];
      }
    }
  }

  /** No occurrence of `p` starts inside `a` when `a` lacks the first character of `p`. */
  lemma NoEarlyOccurrence(a: string, p: string, b: string)
    requires p != [] && p[0] !in a
    ensures forall j :: 0 <= j < |a| ==> !OccursAt(a + p + b, p, j)
  {
    var s := a + p + b;
    forall j | 0 <= j < |a|
      ensures !OccursAt(s, p, j)
    {
      assert s[j] == a[j];
      if j + |p| <= |s| {
        assert s[j..j + |p|][0] == s[j];
      }
    }
  }

  /** `p` occurs in `s` exactly once, at index `i`. */
  predicate OnlyAt(s: string, p: string, i: int) {
    OccursAt(s, p, i) && forall j :: 0 <= j <= |s| && j != i ==> !OccursAt(s, p, j)
  }

  /** Replacing every occurrence of a pattern that occurs exactly once, between `a` and `b`. */
  lemma ReplaceOnly(a: string, from: string, b: string, to: string)
    requires from != [] && OnlyAt(a + from + b, from, |a|)
    ensures ReplaceAll(a + from + b, from, to) == a + to + b
  {
    var s := a + from + b;
    forall k | 0 <= k <= |b|
      ensures !OccursAt(b, from, k)
    {
      assert !OccursAt(s, from, |a| + |from| + k);
      if k + |from| <= |b| {
        assert s[|a| + |from| + k..|a| + |from| + k + |from|] == b[k..k + |from|];
      }
    }
    SplitAtFirst(a, from, b);
    NoOccurrenceSplit(b, from);
    assert Split(s, from) == [a, b];
    assert [a, b][1..] == [b];
    assert Join([a, b], to) == a + to + Join([b], to);
  }

  /** The first '&' of `pre + "&" + post` becomes '?' when `pre` has none. */
  lemma FirstAmpersand(pre: string, post: string)
    requires '&' !in pre
    ensures Contains(pre + "&" + post, "&")
    ensures ReplaceFirst(pre + "&" + post, "&", "?") == pre + "?" + post
  {
    var f := pre + "&" + post;
    assert OccursAt(f, "&", |pre|) by {
      assert f[|pre|..|pre| + 1] == "&";
    }
    NoEarlyOccurrence(pre, "&", post);
    FindIs(f, "&", |pre|);
    assert f[..|pre|] == pre;
    assert f[|pre| + 1..] == post;
  }

  /** `p` has no occurrence in `s` when one of its characters is missing from `s`. */
  lemma AbsentByChar(s: string, p: string, k: nat)
    requires k < |p| && p[k] !in s
    ensures !Contains(s, p)
  {
    forall i | 0 <= i <= |s|
      ensures !OccursAt(s, p, i)
    {
      if i + |p| <= |s| {
        assert s[i..i + |p|][k] == s[i + k];
      }
    }
  }

  /**
   * `from` occurs exactly once in `a + from + b` when its `k`-th character
   * occurs nowhere else: not in `a`, not in `b`, not elsewhere in `from`.
   */
  lemma OnlyByChar(a: string, from: string, b: string, k: nat)
    requires k < |from|
    requires from[k] !in a && from[k] !in b
    requires forall m :: 0 <= m < |from| && m != k ==> from[m] != from[k]
    ensures OnlyAt(a + from + b, from, |a|)
  {
    var s := a + from + b;
    assert s[|a|..|a| + |from|] == from;
    forall j | 0 <= j <= |s| && j != |a|
      ensures !OccursAt(s, from, j)
    {
      if j + |from| <= |s| {
        assert s[j..j + |from|][k] == s[j + k];
        if j + k < |a| {
          assert s[j + k] == a[j + k];
        } else if j + k < |a| + |from| {
          assert s[j + k] == from[j + k - |a|];
        } else {
          assert s[j + k] == b[j + k - |a| - |from|];
        }
      }
    }
  }

  /** A Spotify link whose one ".com/track" is not already an embed becomes an embed link. */
  lemma SpotifyTrack(a: string, b: string)
    requires OnlyAt(a + ".com/track" + b, ".com/track", |a|)
    requires !Contains(a + ".com/track" + b, ".com/embed")
    ensures SpotifySrc(a + ".com/track" + b) == a + ".com/embed/track" + b
  {
    ReplaceOnly(a, ".com/track", b, ".com/embed/track");
  }

  /** The track link of the source's test, split around ".com/track". */
  lemma SpotifyExample(a: string, b: string)
    requires a == "https://open.spotify" && b == "/3YD9EehnGOf88rGSZFrnHg?si=8c669e6880f54c88"
    ensures SpotifySrc(a + ".com/track" + b) == a + ".com/embed/track" + b
  {
    SpotifyTestChars(a, b);
    assert 'b' !in a + ".com/track" + b;
    AbsentByChar(a + ".com/track" + b, ".com/embed", 7);
    OnlyByChar(a, ".com/track", b, 9);
    SpotifyTrack(a, b);
  }

  lemma SpotifyTestChars(a: string, b: string)
    requires a == "https://open.spotify" && b == "/3YD9EehnGOf88rGSZFrnHg?si=8c669e6880f54c88"
    ensures 'k' !in a && 'k' !in b && 'b' !in a && 'b' !in b
  {
    assert Avoids(a, 'k', 'b');
    assert Avoids(b, 'k', 'b');
  }

  /** Neither `c` nor `d` occurs in `s`. */
  predicate Avoids(s: string, c: char, d: char) {
    forall i :: 0 <= i < |s| ==> s[i] != c && s[i] != d
  }

  /** A link whose one "vimeo.com" is not on player.vimeo.com becomes a player.vimeo.com/video link. */
  lemma VimeoPlayer(a: string, b: string)
    requires OnlyAt(a + "vimeo.com" + b, "vimeo.com", |a|)
    requires !Contains(a + "vimeo.com" + b, "player.vimeo.com")
    ensures VimeoSrc(a + "vimeo.com" + b) == a + "player.vimeo.com/video" + b
  {
    ReplaceOnly(a, "vimeo.com", b, "player.vimeo.com/video");
  }

  /** The link of the source's test, "https://vimeo.com/665036978#t=20s", split around "vimeo.com". */
  lemma VimeoExample(a: string, b: string)
    requires a == "https://" && b == "/665036978#t=20s"
    ensures VimeoSrc(a + "vimeo.com" + b) == a + "player.vimeo.com/video" + b
  {
    VimeoTestParts(a, b);
    assert 'l' !in a + "vimeo.com" + b;
    AbsentByChar(a + "vimeo.com" + b, "player.vimeo.com", 1);
    OnlyByChar(a, "vimeo.com", b, 0);
    VimeoPlayer(a, b);
  }

  lemma VimeoTestParts(a: string, b: string)
    requires a == "https://" && b == "/665036978#t=20s"
    ensures 'v' !in a && 'v' !in b && 'l' !in a && 'l' !in b
  {
    assert Avoids(a, 'v', 'l');
    assert Avoids(b, 'v', 'l');
  }

  /** A CodeSandbox link whose one ".io/s" is a sandbox path becomes the ".io/embed" link. */
  lemma CodesandboxEmbed(a: string, b: string)
    requires OnlyAt(a + ".io/s" + b, ".io/s", |a|)
    ensures CsSrc(a + ".io/s" + b) == a + ".io/embed" + b
  {
    ReplaceOnly(a, ".io/s", b, ".io/embed");
  }

  /** The sandbox link "https://codesandbox.io/s/new", split around ".io/s". */
  lemma CodesandboxExample(a: string, b: string)
    requires a == "https://codesandbox" && b == "/new"
    ensures CsSrc(a + ".io/s" + b) == a + ".io/embed" + b
  {
    assert '.' !in a && '.' !in b;
    OnlyByChar(a, ".io/s", b, 0);
    CodesandboxEmbed(a, b);
  }

  /** A CodePen link whose one "/pen/" is not already an "/embed/" link becomes one. */
  lemma CodepenEmbed(a: string, b: string)
    requires OnlyAt(a + "/pen/" + b, "/pen/", |a|)
    requires !Contains(a + "/pen/" + b, "/embed/")
    ensures CpSrc(a + "/pen/" + b) == a + "/embed/" + b
  {
    ReplaceOnly(a, "/pen/", b, "/embed/");
  }

  /** "watch?v=" becomes "embed/" and the first '&', the one after the id, becomes '?'. */
  lemma YoutubeWatch(a: string, v: string, params: string)
    requires OnlyAt(a + "watch?v=" + v + "&" + params, "watch?v=", |a|)
    requires '&' !in a && '&' !in v
    ensures YoutubeSrc(a + "watch?v=" + v + "&" + params) == a + "embed/" + v + "?" + params
  {
    WatchShape(a, v, params);
    ReplaceOnly(a, "watch?v=", v + "&" + params, "embed/");
    FirstAmpersand(a + "embed/" + v, params);
  }

  /** The regrouping `YoutubeWatch` needs: the id and parameters as one tail, then the embed path as one head. */
  lemma WatchShape(a: string, v: string, params: string)
    requires '&' !in a && '&' !in v
    ensures a + "watch?v=" + v + "&" + params == a + "watch?v=" + (v + "&" + params)
    ensures a + "embed/" + (v + "&" + params) == (a + "embed/" + v) + "&" + params
    ensures '&' !in a + "embed/" + v
  {
  }

  /** Without extra parameters only "watch?v=" is rewritten. */
  lemma YoutubeWatchPlain(a: string, v: string)
    requires OnlyAt(a + "watch?v=" + v, "watch?v=", |a|)
    requires '&' !in a && '&' !in v
    ensures YoutubeSrc(a + "watch?v=" + v) == a + "embed/" + v
  {
    ReplaceOnly(a, "watch?v=", v, "embed/");
    assert '&' !in a + "embed/" + v;
    AbsentByFirst(a + "embed/" + v, "&");
  }

  /** A youtu.be short link, with one ".be/" and no "embed", becomes a youtube.com embed link. */
  lemma YoutubeShort(a: string, b: string)
    requires OnlyAt(a + ".be/" + b, ".be/", |a|)
    requires !Contains(a + ".be/" + b, "watch?v=") && !Contains(a + ".be/" + b, "embed")
    ensures YoutubeSrc(a + ".be/" + b) == a + "be.com/embed/" + b
  {
    var link := a + ".be/" + b;
    assert OccursAt(link, ".be", |a|) by {
      assert link[|a|..|a| + 3] == ".be";
    }
    ReplaceOnly(a, ".be/", b, "be.com/embed/");
  }

  /** The only 'e' of `a + ".be/" + b` is followed by '/', so "embed" does not occur. */
  lemma NoEmbedInShort(a: string, b: string)
    requires 'e' !in a && 'e' !in b
    ensures !Contains(a + ".be/" + b, "embed")
  {
    var link := a + ".be/" + b;
    forall i | 0 <= i <= |link|
      ensures !OccursAt(link, "embed", i)
    {
      if i + 5 <= |link| {
        assert link[i..i + 5][0] == link[i];
        assert link[i..i + 5][1] == link[i + 1];
        if i != |a| + 2 {
          assert link[i] != 'e';
        } else {
          assert link[i + 1] == '/';
        }
      }
    }
  }

  /** The watch link of the source's test, "https://youtube.com/watch?v=giEnkiRHJ9Y". */
  lemma YoutubeExample(a: string, v: string)
    requires a == "https://youtube.com/" && v == "giEnkiRHJ9Y"
    ensures YoutubeSrc(a + "watch?v=" + v) == a + "embed/" + v
  {
    YoutubeTestParts(a, v);
    OnlyByChar(a, "watch?v=", v, 0);
    YoutubeWatchPlain(a, v);
  }

  lemma YoutubeTestParts(a: string, v: string)
    requires a == "https://youtube.com/" && v == "giEnkiRHJ9Y"
    ensures 'w' !in a && 'w' !in v && '&' !in a && '&' !in v
  {
    assert Avoids(a, 'w', '&');
    assert Avoids(v, 'w', '&');
  }

  /** A www watch link: its one '?' pins the single "watch?v=". */
  lemma YoutubeWwwExample(a: string, v: string)
    requires a == "https://www.youtube.com/" && v == "giEnkiRHJ9Y"
    ensures YoutubeSrc(a + "watch?v=" + v) == a + "embed/" + v
  {
    assert Avoids(a, '?', '&') && Avoids(v, '?', '&');
    OnlyByChar(a, "watch?v=", v, 5);
    YoutubeWatchPlain(a, v);
  }

  // ---------------------------------------------------------------------
  // collapse_to

  /** The target of a page link: the part after the first '|' when there is one, else the whole text. */
  function LinkTarget(content: string): string {
    var aliases := Split(content, "|");
    if |aliases| > 1 then aliases[1] else aliases[0]
  }

  /** The text shown for a page link: the part before the first '|'. */
  function LinkText(content: string): string {
    Split(content, "|")[0]
  }

  function Anchor(href: string, text: string): string {
    "<a href=\"" + href + "\">" + text + "</a>"
  }

  /** Every page link in `e` has a target `format_links` accepts. */
  predicate Renderable(e: Element)
    decreases e
  {
    match e
    case PageLink(content) => LinkTarget(content) != "files"
    case Heading(cs) => forall k :: 0 <= k < |cs| ==> Renderable(cs[k])
    case Quote(cs) => forall k :: 0 <= k < |cs| ==> Renderable(cs[k])
    case _ => true
  }

  /** Some host or file type of `u` has an embed. */
  predicate Embeddable(u: string) {
    Contains(u, "youtube.com") || Contains(u, "youtu.be") || Contains(u, "codesandbox.io")
    || Contains(u, "codepen.io") || EndsWith(u, ".mp3") || EndsWith(u, ".ogg")
    || EndsWith(u, ".flac") || Contains(u, "vimeo.com") || Contains(u, "spotify.com")
  }

  /** The embeds written ahead of a hyperlink, one per matching host, in the source's order. */
  function Embeds(u: string): string {
    (if Contains(u, "youtube.com") || Contains(u, "youtu.be") then TransformYoutubeUrl(u) else "")
    + OtherEmbeds(u)
  }

  /** The embeds after the YouTube one, in the source's order. */
  function OtherEmbeds(u: string): string {
    (if Contains(u, "codesandbox.io") then TransformCsUrl(u) else "")
    + (if Contains(u, "codepen.io") then TransformCpUrl(u) else "")
    + (if EndsWith(u, ".mp3") || EndsWith(u, ".ogg") || EndsWith(u, ".flac") then TransformAudioUrl(u) else "")
    + (if Contains(u, "vimeo.com") then TransformVimeoUrl(u) else "")
    + (if Contains(u, "spotify.com") then TransformSpotifyUrl(u) else "")
  }

  /** A link with no embeddable host or file type gets no embed. */
  lemma NoEmbeds(u: string)
    requires !Embeddable(u)
    ensures Embeds(u) == ""
  {
  }

  /** The embeds of a hyperlink followed by a plain anchor to it. */
  function HyperLinkHtml(u: string): string {
    Embeds(u) + Anchor(u, u)
  }

  /** The HTML `collapse_to` appends for one element. */
  function Render(e: Element): string
    requires Renderable(e)
    decreases e, 1
  {
    match e
    case Heading(cs) => "<h2>" + RenderAll(cs) + "</h2>"
    case PageLink(content) => Anchor(FormatLinks(LinkTarget(content)), LinkText(content))
    case Quote(cs) => "<blockquote>" + RenderAll(cs) + "</blockquote>"
    case EmptySpace(c) => c
    case Text(c) => c
    case HyperLink(u) => HyperLinkHtml(u)
    case IndentationLevel(_) => ""
  }

  /** The children's HTML, in order. */
  function RenderAll(cs: seq<Element>): string
    requires forall k :: 0 <= k < |cs| ==> Renderable(cs[k])
    decreases cs, 0
  {
    if cs == [] then "" else RenderAll(cs[..|cs| - 1]) + Render(cs[|cs| - 1])
  }

  /** `collapse_to`: appends the element's HTML; what the target held is never altered. */
  method CollapseTo(e: Element, target: string) returns (out: string)
    requires Renderable(e)
    ensures out == target + Render(e)
    decreases e, 1
  {
    match e {
      case Heading(cs) =>
        out := CollapseChildren(cs, target + "<h2>");
        out := out + "</h2>";
      case PageLink(content) =>
        var aliases := Split(content, "|");
        if |aliases| > 1 {
          out := target + Anchor(FormatLinks(aliases[1]), aliases[0]);
        } else {
          out := target + Anchor(FormatLinks(aliases[0]), aliases[0]);
        }
      case Quote(cs) =>
        out := CollapseChildren(cs, target + "<blockquote>");
        out := out + "</blockquote>";
      case EmptySpace(c) =>
        out := target + c;
      case Text(c) =>
        out := target + c;
      case HyperLink(u) =>
        out := target + HyperLinkHtml(u);
      case IndentationLevel(_) =>
        out := target;
    }
  }

  /** The `for part in content` loop of `collapse_to`. */
  method CollapseChildren(cs: seq<Element>, target: string) returns (out: string)
    requires forall k :: 0 <= k < |cs| ==> Renderable(cs[k])
    ensures out == target + RenderAll(cs)
    decreases cs, 0
  {
    out := target;
    var i := 0;
    while i < |cs|
      invariant i <= |cs|
      invariant out == target + RenderAll(cs[..i])
    {
      out := CollapseTo(cs[i], out);
      assert out == target + RenderAll(cs[..i + 1]) by {
        RenderAllSnoc(cs, i);
        AppendAssoc(target, RenderAll(cs[..i]), Render(cs[i]));
      }
      i := i + 1;
    }
    assert cs[..i] == cs;
  }

  lemma {:induction false} RenderAllAppend(xs: seq<Element>, ys: seq<Element>)
    requires forall k :: 0 <= k < |xs| ==> Renderable(xs[k])
    requires forall k :: 0 <= k < |ys| ==> Renderable(ys[k])
    ensures forall k :: 0 <= k < |xs + ys| ==> Renderable((xs + ys)[k])
    ensures RenderAll(xs + ys) == RenderAll(xs) + RenderAll(ys)
    decreases |ys|
  {
    var zs := xs + ys;
    assert forall k :: 0 <= k < |zs| ==> Renderable(zs[k]) by {
      forall k | 0 <= k < |zs|
        ensures Renderable(zs[k])
      {
        if k >= |xs| {
          assert zs[k] == ys[k - |xs|];
        }
      }
    }
    if ys != [] {
      var init := ys[..|ys| - 1];
      var y := ys[|ys| - 1];
      assert zs[..|zs| - 1] == xs + init;
      assert zs[|zs| - 1] == y;
      RenderAllAppend(xs, init);
      RenderAllLast(zs);
      RenderAllLast(ys);
      AppendAssoc(RenderAll(xs), RenderAll(init), Render(y));
    } else {
      assert zs == xs;
    }
  }

  /** The last child is rendered after all the others. */
  lemma {:induction false} RenderAllLast(cs: seq<Element>)
    requires cs != [] && forall k :: 0 <= k < |cs| ==> Renderable(cs[k])
    ensures RenderAll(cs) == RenderAll(cs[..|cs| - 1]) + Render(cs[|cs| - 1])
  {
  }

  /** "a|b" links to `format_links(b)` and shows a; without '|' the whole text is both. */
  lemma PageLinkRender(a: string, b: string)
    requires '|' !in a && '|' !in b && b != "files"
    ensures Renderable(PageLink(a + "|" + b))
    ensures Render(PageLink(a + "|" + b)) == Anchor(FormatLinks(b), a)
  {
    ContainsChar(a, '|');
    ContainsChar(b, '|');
    CharSepFirst(a, '|', b);
    NoOccurrenceSplit(b, "|");
  }

  lemma PlainPageLinkRender(a: string)
    requires '|' !in a && a != "files"
    ensures Renderable(PageLink(a))
    ensures Render(PageLink(a)) == Anchor(FormatLinks(a), a)
  {
    ContainsChar(a, '|');
    NoOccurrenceSplit(a, "|");
  }

  /** A hyperlink always ends with the plain anchor to it, after its embeds. */
  lemma HyperLinkRender(u: string)
    ensures Render(HyperLink(u)) == Embeds(u) + Anchor(u, u)
    ensures EndsWith(Render(HyperLink(u)), Anchor(u, u))
  {
    AppendAffixes(Embeds(u), Anchor(u, u));
  }

  /** A hyperlink with nothing to embed is just the anchor. */
  lemma PlainHyperLink(u: string)
    requires !Embeddable(u)
    ensures Render(HyperLink(u)) == Anchor(u, u)
  {
    NoEmbeds(u);
  }

  /** Headings and quotes wrap their children's HTML, in order. */
  lemma WrapperRender(cs: seq<Element>)
    requires forall k :: 0 <= k < |cs| ==> Renderable(cs[k])
    ensures Renderable(Heading(cs)) && Renderable(Quote(cs))
    ensures Render(Heading(cs)) == "<h2>" + RenderAll(cs) + "</h2>"
    ensures Render(Quote(cs)) == "<blockquote>" + RenderAll(cs) + "</blockquote>"
  {
  }

  /** A single child renders as itself. */
  lemma RenderOne(x: Element)
    requires Renderable(x)
    ensures RenderAll([x]) == Render(x)
  {
    assert [x][..0] == [];
  }

  /** Rendering the children one at a time, left to right. */
  lemma RenderAllSnoc(cs: seq<Element>, i: nat)
    requires i < |cs|
    requires forall k :: 0 <= k < |cs| ==> Renderable(cs[k])
    ensures RenderAll(cs[..i + 1]) == RenderAll(cs[..i]) + Render(cs[i])
  {
    assert cs[..i + 1][..i] == cs[..i];
  }
}
