/**
 * The streams reader: attribute lookup over the children of a streams
 * document's root, and the resolution of a filename-template attribute into an
 * absolute glob pattern.
 *
 * The parsed XML document is represented by the ordered sequence of all the
 * children of its root, each as the map of its attributes. The reader never
 * looks at a child's tag, so `<stream>` and `<immutable_stream>` elements
 * alike are searched.
 */
module Streams {
  import opened Wrappers
  import PathTemplate

  /** One child of the root, of whatever tag: its attributes, by name. */
  type Stream = map<string, string>

  /** A loaded streams file: the root's children in document order, and the
      directory holding the file (absolute, as the constructor computes it). */
  datatype StreamsFile = StreamsFile(streams: seq<Stream>, absdir: string)

  /** Raised by `ReadPath` when the lookup it starts from finds nothing. */
  datatype PathError = NoSuchAttribute(streamName: string, attribName: string)

  /** The child's `name` attribute is `name`; a child without one, such as
      an XML comment, never matches, since a missing attribute reads as no
      value. */
  predicate Named(st: Stream, name: string)
  {
    "name" in st && st["name"] == name
  }

  /** `i` is the first stream, in document order, named `name`. */
  ghost predicate FirstNamed(streams: seq<Stream>, name: string, i: int)
  {
    && 0 <= i < |streams|
    && Named(streams[i], name)
    && forall j :: 0 <= j < i ==> !Named(streams[j], name)
  }

  /** The position of the first stream named `name`, if any. */
  function FindStream(streams: seq<Stream>, name: string): (r: Option<nat>)
    ensures r.Some? ==> FirstNamed(streams, name, r.value)
    ensures r.None? <==> forall i :: 0 <= i < |streams| ==> !Named(streams[i], name)
    decreases |streams|
  {
    if |streams| == 0 then None
    else if Named(streams[0], name) then Some(0)
    else
      match FindStream(streams[1..], name)
      case None => None
      case Some(i) => Some(i + 1)
  }

  /** The value of attribute `attribName` of the first stream named
      `streamName`; absent when there is no such stream or that stream lacks
      the attribute. */
  function Read(streams: seq<Stream>, streamName: string, attribName: string): (r: Option<string>)
    ensures r.Some? <==> exists i :: FirstNamed(streams, streamName, i) && attribName in streams[i]
    ensures forall i :: FirstNamed(streams, streamName, i) && attribName in streams[i] ==>
              r == Some(streams[i][attribName])
  {
    match FindStream(streams, streamName)
    case None => None
    case Some(i) =>
      if attribName in streams[i] then Some(streams[i][attribName]) else None
  }

  /** Streams after the first one named `streamName` are never consulted,
      even when that first one lacks the attribute. */
  lemma ReadIgnoresLaterStreams(a: seq<Stream>, b: seq<Stream>, streamName: string, attribName: string)
    requires exists i :: 0 <= i < |a| && Named(a[i], streamName)
    ensures Read(a + b, streamName, attribName) == Read(a, streamName, attribName)
  {
    var k := FindStream(a, streamName);
    assert k.Some?;
    var i := k.value;
    assert forall j :: 0 <= j <= i ==> (a + b)[j] == a[j];
    assert FirstNamed(a + b, streamName, i);
  }

  /** Streams not named `streamName` are skipped. */
  lemma ReadSkipsOtherStreams(a: seq<Stream>, b: seq<Stream>, streamName: string, attribName: string)
    requires forall i :: 0 <= i < |a| ==> !Named(a[i], streamName)
    ensures Read(a + b, streamName, attribName) == Read(b, streamName, attribName)
  {
    match FindStream(b, streamName)
    case None =>
      assert forall i :: 0 <= i < |a + b| ==> !Named((a + b)[i], streamName) by {
        forall i | 0 <= i < |a + b|
          ensures !Named((a + b)[i], streamName)
        {
          if i >= |a| {
            assert (a + b)[i] == b[i - |a|];
          }
        }
      }
      assert FindStream(a + b, streamName).None?;
    case Some(k) =>
      assert FirstNamed(a + b, streamName, |a| + k) by {
        assert (a + b)[|a| + k] == b[k];
        forall j | 0 <= j < |a| + k
          ensures !Named((a + b)[j], streamName)
        {
          if j >= |a| {
            assert (a + b)[j] == b[j - |a|];
          }
        }
      }
      assert (a + b)[|a| + k] == b[k];
  }

  /** POSIX `os.path.isabs`: the path starts with `/`. */
  predicate IsAbsolute(path: string)
  {
    |path| > 0 && path[0] == '/'
  }

  /** The reader's path resolution for a raw template: rewrite the seven
      placeholders, one `replace` after another in the table's order, then
      anchor a relative result to `absdir`. */
  function ResolvePath(absdir: string, raw: string): (path: string)
    ensures IsAbsolute(raw) ==> path == PathTemplate.Substitute(raw)
    ensures !IsAbsolute(raw) ==> path == absdir + "/" + PathTemplate.Substitute(raw)
    ensures IsAbsolute(absdir) ==> IsAbsolute(path)
    ensures !PathTemplate.HasToken(absdir) ==> !PathTemplate.HasToken(path)
  {
    PathTemplate.SourceOrderIsSinglePass(raw);
    PathTemplate.SubstituteKeepsRoot(raw);
    PathTemplate.SubstituteRemovesTokens(raw);
    var p := PathTemplate.ReplaceInOrder(raw, PathTemplate.SourceOrder);
    AnchorKeepsNoToken(absdir, p);
    if IsAbsolute(p) then p else absdir + "/" + p
  }

  /** Joining a directory and a path with `/` creates no placeholder. */
  lemma AnchorKeepsNoToken(absdir: string, p: string)
    ensures !PathTemplate.HasToken(absdir) && !PathTemplate.HasToken(p) ==> !PathTemplate.HasToken(absdir + "/" + p)
  {
    if !PathTemplate.HasToken(absdir) && !PathTemplate.HasToken(p) {
      PathTemplate.NoTokenAcross(absdir, "/");
      PathTemplate.NoTokenAcross(absdir + "/", p);
    }
  }

  /** `readpath`: look the template up with `Read` and resolve it. The
      modelled code has no guard for a missing value: the first
      `path.replace` looks up `replace` on `None` and raises
      `AttributeError`. That failure is `NoSuchAttribute`. */
  function ReadPath(f: StreamsFile, streamName: string, attribName: string): (r: Result<string, PathError>)
    ensures r.Failure? <==> forall i :: FirstNamed(f.streams, streamName, i) ==> attribName !in f.streams[i]
    ensures r.Failure? ==> r.error == NoSuchAttribute(streamName, attribName)
    ensures forall i :: FirstNamed(f.streams, streamName, i) && attribName in f.streams[i] ==>
              r == Success(ResolvePath(f.absdir, f.streams[i][attribName]))
    ensures r.Success? && IsAbsolute(f.absdir) ==> IsAbsolute(r.value)
  {
    match Read(f.streams, streamName, attribName)
    case None => Failure(NoSuchAttribute(streamName, attribName))
    case Some(raw) => Success(ResolvePath(f.absdir, raw))
  }

  /** What the resolved pattern matches, when neither the directory nor the
      template holds a glob metacharacter: an absolute template's fillings,
      or `absdir`, a `/` and a relative template's fillings. Placeholders in
      `absdir` itself are not rewritten and match only themselves. */
  lemma ResolvedPatternMeaning(absdir: string, raw: string, t: string)
    requires PathTemplate.GlobFree(absdir) && PathTemplate.GlobFree(raw)
    ensures PathTemplate.DigitGlobMatches(ResolvePath(absdir, raw), t) <==>
            if IsAbsolute(raw) then PathTemplate.Fills(raw, t)
            else |t| > |absdir| && t[..|absdir| + 1] == absdir + "/" && PathTemplate.Fills(raw, t[|absdir| + 1..])
  {
    AnchoredPatternMeaning(absdir, raw, ResolvePath(absdir, raw), t);
  }

  /** What a substituted template, anchored as `ResolvePath` anchors it,
      matches. */
  lemma AnchoredPatternMeaning(absdir: string, raw: string, p: string, t: string)
    requires PathTemplate.GlobFree(absdir) && PathTemplate.GlobFree(raw)
    requires IsAbsolute(raw) ==> p == PathTemplate.Substitute(raw)
    requires !IsAbsolute(raw) ==> p == absdir + "/" + PathTemplate.Substitute(raw)
    ensures PathTemplate.DigitGlobMatches(p, t) <==>
            if IsAbsolute(raw) then PathTemplate.Fills(raw, t)
            else |t| > |absdir| && t[..|absdir| + 1] == absdir + "/" && PathTemplate.Fills(raw, t[|absdir| + 1..])
  {
    var sub := PathTemplate.Substitute(raw);
    if IsAbsolute(raw) {
      PathTemplate.SubstituteMeaning(raw, t);
    } else {
      var lit := absdir + "/";
      PathTemplate.LiteralPrefixMatch(lit, sub, t);
      if |t| >= |lit| {
        PathTemplate.SubstituteMeaning(raw, t[|lit|..]);
      }
    }
  }
}
