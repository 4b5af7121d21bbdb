/**
  The result contract of the server's AI analysis functions. The provider call
  itself (reading the file, the network round trip, `JSON.parse`) is outside
  the model: its outcome is the `reply` parameter, and whether an API key is
  configured is the `hasKey` parameter. Every analysis returns a well-formed
  result and never fails.
 */
module AiServices {
  import opened Basics
  import Text

  /** The five kinds of content the server analyses. */
  datatype Kind = Image | Pdf | Audio | YouTube | NoteSummary

  /** What an analysis asks for: an uploaded file, a YouTube link or the text of a note. */
  datatype Request = ImageFile | PdfFile | AudioFile | YouTubeLink(url: string) | NoteText(content: string)

  /** The `type` field of a result: the analysed kind, or the error tag. */
  datatype ResultType = OfKind(kind: Kind) | ErrorType

  /** `AIAnalysisResult`. */
  datatype AnalysisResult = AnalysisResult(summary: string, keyPoints: seq<string>, confidence: real, kind: ResultType)

  /**
    The provider call's outcome: any failure along the way (file read, provider
    error, unparsable JSON, a reply that parses to `null`), or the parsed
    value's three fields, each `None` when absent or `null`. A reply that parses
    to a number, string, boolean or array has no such fields, so it is
    `Parsed(None, None, None)`.
   */
  datatype ProviderReply =
    | Failed
    | Parsed(summary: Option<string>, keyPoints: Option<seq<string>>, confidence: Option<real>)

  function KindOf(req: Request): Kind
  {
    match req
    case ImageFile => Image
    case PdfFile => Pdf
    case AudioFile => Audio
    case YouTubeLink(_) => YouTube
    case NoteText(_) => NoteSummary
  }

  /** The `type` tag a successful or guest analysis of each kind carries. */
  function Tag(k: Kind): string
  {
    match k
    case Image => "image"
    case Pdf => "pdf"
    case Audio => "audio"
    case YouTube => "youtube"
    case NoteSummary => "note-summary"
  }

  /** The string the `type` field carries on the wire. */
  function TypeName(t: ResultType): string
  {
    match t
    case OfKind(k) => Tag(k)
    case ErrorType => "error"
  }

  /** Different result types never share a wire name, so clients can tell them apart. */
  lemma TypeNameInjective(t1: ResultType, t2: ResultType)
    requires t1 != t2
    ensures TypeName(t1) != TypeName(t2)
  {
    var a, b := TypeName(t1), TypeName(t2);
    if |a| == |b| {
      assert a[0] != b[0];
    }
  }

  // ------------------------------------------------- YouTube id extraction

  /** The three URL shapes the video-id pattern looks for, in the order its alternation tries them. */
  const WatchMarker: string := "youtube.com/watch?v="
  const ShortMarker: string := "youtu.be/"
  const EmbedMarker: string := "youtube.com/embed/"

  predicate IsMarker(m: string)
  {
    m == WatchMarker || m == ShortMarker || m == EmbedMarker
  }

  /** Characters the captured id may contain: anything but `&`, `?`, `#` and newline. */
  predicate IdChar(c: char)
  {
    c != '&' && c != '?' && c != '#' && c != '\n'
  }

  /** The length of the longest prefix of `s` made of id characters. */
  function IdRun(s: string): (n: nat)
    ensures n <= |s|
    ensures forall i :: 0 <= i < n ==> IdChar(s[i])
    ensures n < |s| ==> !IdChar(s[n])
  {
    if |s| > 0 && IdChar(s[0]) then 1 + IdRun(s[1..]) else 0
  }

  /** Marker `m` occurs at `i` and is followed by at least one id character. */
  predicate Hit(url: string, i: int, m: string)
  {
    Text.OccursAt(url, m, i) && i + |m| < |url| && IdChar(url[i + |m|])
  }

  /** The id the pattern captures after marker `m` at `i`: the maximal run of id characters. */
  function Captured(url: string, i: nat, m: string): string
    requires i + |m| <= |url|
  {
    url[i + |m|..i + |m| + IdRun(url[i + |m|..])]
  }

  /** Some marker is hit at `i`. */
  predicate HitAt(url: string, i: int)
  {
    Hit(url, i, WatchMarker) || Hit(url, i, ShortMarker) || Hit(url, i, EmbedMarker)
  }

  /** The capture of the first alternative that is hit at `i`, if any. */
  function HitHere(url: string, i: nat): (r: Option<string>)
    ensures r.Some? <==> HitAt(url, i)
    ensures r.Some? ==> exists m :: IsMarker(m) && Hit(url, i, m) && r.value == Captured(url, i, m)
  {
    if Hit(url, i, WatchMarker) then Some(Captured(url, i, WatchMarker))
    else if Hit(url, i, ShortMarker) then Some(Captured(url, i, ShortMarker))
    else if Hit(url, i, EmbedMarker) then Some(Captured(url, i, EmbedMarker))
    else None
  }

  /**
    The leftmost position at or after `i` where some alternative matches, or
    `|url|` when there is none (no marker fits there).
   */
  function FirstHit(url: string, i: nat): (j: nat)
    requires i <= |url|
    ensures i <= j <= |url|
    ensures forall j' :: i <= j' < j ==> !HitAt(url, j')
    ensures HitAt(url, j) || j == |url|
    decreases |url| - i
  {
    if i == |url| || HitAt(url, i) then i else FirstHit(url, i + 1)
  }

  /**
    `extractYouTubeVideoId`: an unanchored search for the first place where a
    marker is followed by a non-empty run of id characters; the id is that run,
    after the first alternative that matches there.
   */
  function ExtractVideoId(url: string): Option<string>
  {
    HitHere(url, FirstHit(url, 0))
  }

  /**
    No id exactly when no marker anywhere is followed by an id character; an
    extracted id is non-empty, made only of id characters, comes right after
    the leftmost such marker, and occurs in the URL.
   */
  lemma ExtractVideoIdSpec(url: string)
    ensures ExtractVideoId(url).None? <==> forall j :: 0 <= j <= |url| ==> !HitAt(url, j)
    ensures ExtractVideoId(url).Some? ==>
      var id := ExtractVideoId(url).value;
      && |id| > 0
      && (forall k :: 0 <= k < |id| ==> IdChar(id[k]))
      && Text.Includes(url, id)
      && exists j, m :: 0 <= j <= |url| && IsMarker(m) && Hit(url, j, m) && id == Captured(url, j, m)
                        && forall j' :: 0 <= j' < j ==> !HitAt(url, j')
  {
    var j := FirstHit(url, 0);
    assert !HitAt(url, |url|);
    if ExtractVideoId(url).Some? {
      var id := ExtractVideoId(url).value;
      var m :| IsMarker(m) && Hit(url, j, m) && id == Captured(url, j, m);
      CapturedShape(url, j, m);
      Text.IncludesSpec(url, id);
    }
  }

  /** What follows a hit marker is a non-empty run of id characters found in the URL. */
  lemma CapturedShape(url: string, j: nat, m: string)
    requires Hit(url, j, m)
    ensures var id := Captured(url, j, m);
      && |id| > 0
      && (forall k :: 0 <= k < |id| ==> IdChar(id[k]))
      && Text.OccursAt(url, id, j + |m|)
  {
    var tail := url[j + |m|..];
    assert tail[0] == url[j + |m|];
    var n := IdRun(tail);
    assert Captured(url, j, m) == tail[..n];
  }

  /** A link that starts with a marker yields exactly the id that follows it, up to a separator. */
  lemma ExtractAfterMarker(m: string, id: string, rest: string)
    requires IsMarker(m) && |id| > 0
    requires forall k :: 0 <= k < |id| ==> IdChar(id[k])
    requires rest == [] || !IdChar(rest[0])
    ensures ExtractVideoId(m + id + rest) == Some(id)
  {
    var url := m + id + rest;
    assert url[..|m|] == m;
    assert url[|m|] == id[0];
    RunOfId(id, rest);
    assert url[|m|..] == id + rest;
    assert Captured(url, 0, m) == id;
    MarkersExclusive(url, 0);
    assert Hit(url, 0, m);
  }

  lemma {:induction false} RunOfId(id: string, rest: string)
    requires forall k :: 0 <= k < |id| ==> IdChar(id[k])
    requires rest == [] || !IdChar(rest[0])
    ensures IdRun(id + rest) == |id|
  {
    if |id| > 0 {
      assert (id + rest)[1..] == id[1..] + rest;
      RunOfId(id[1..], rest);
    } else {
      assert id + rest == rest;
    }
  }

  /** No two markers occur at the same position, so the order of the alternation never matters. */
  lemma MarkersExclusive(url: string, i: int)
    ensures !(Text.OccursAt(url, WatchMarker, i) && Text.OccursAt(url, ShortMarker, i))
    ensures !(Text.OccursAt(url, WatchMarker, i) && Text.OccursAt(url, EmbedMarker, i))
    ensures !(Text.OccursAt(url, ShortMarker, i) && Text.OccursAt(url, EmbedMarker, i))
  {
    assert Text.OccursAt(url, WatchMarker, i) ==> url[i + 5] == WatchMarker[5] && url[i + 12] == WatchMarker[12];
    assert Text.OccursAt(url, ShortMarker, i) ==> url[i + 5] == ShortMarker[5];
    assert Text.OccursAt(url, EmbedMarker, i) ==> url[i + 5] == EmbedMarker[5] && url[i + 12] == EmbedMarker[12];
  }

  // ------------------------------------------------------- result shapes

  // The canned texts, named once: the summaries and key points of guest mode,
  // the defaults that stand in for falsy provider fields, and the error summaries.
  const GuestImageSummary: string := "Immagine caricata correttamente - configura GEMINI_API_KEY per l'analisi AI"
  const GuestPdfSummary: string := "PDF caricato correttamente - configura GEMINI_API_KEY per l'analisi AI"
  const GuestAudioSummary: string := "Audio caricato correttamente - configura GEMINI_API_KEY per l'analisi AI"
  const GuestVideoPrefix: string := "Video YouTube identificato: "
  const GuestVideoSuffix: string := " - configura GEMINI_API_KEY per l'analisi AI"
  const GuestNoteSummary: string := "Nota identificata - configura GEMINI_API_KEY per il riassunto AI"
  const GuestImagePoint: string := "File immagine identificato"
  const GuestPdfPoint: string := "File PDF identificato"
  const GuestAudioPoint: string := "File audio identificato"
  const GuestVideoPoint: string := "URL YouTube valido"
  const GuestNotePoint: string := "Contenuto nota disponibile"
  const GuestAnalysisUnavailable: string := "Analisi AI non disponibile in modalità guest"
  const GuestSummaryUnavailable: string := "Riassunto AI non disponibile in modalità guest"

  const DefaultImageSummary: string := "Immagine analizzata"
  const DefaultPdfSummary: string := "Documento analizzato"
  const DefaultAudioSummary: string := "File audio identificato - implementare trascrizione completa"
  const DefaultVideoPrefix: string := "Analisi video YouTube: "
  const DefaultNoteSummary: string := "Nota riassunta"
  const DefaultAudioPoints: seq<string> := ["File audio caricato", "Necessaria integrazione con servizio di trascrizione"]
  const DefaultVideoPoints: seq<string> := ["Contenuto video identificato", "Implementare YouTube Data API per analisi completa"]

  const ImageErrorSummary: string := "Errore durante l'analisi dell'immagine"
  const PdfErrorSummary: string := "Errore durante l'analisi del PDF"
  const AudioErrorSummary: string := "Errore durante l'analisi dell'audio"
  const VideoErrorSummary: string := "Errore durante l'analisi del video YouTube"
  const NoteErrorSummary: string := "Errore durante il riassunto della nota"

  /** The canned result when no API key is configured. */
  function GuestResult(k: Kind, videoId: string): (r: AnalysisResult)
    ensures r.kind == OfKind(k)
  {
    match k
    case Image => AnalysisResult(GuestImageSummary, [GuestImagePoint, GuestAnalysisUnavailable], 0.8, OfKind(Image))
    case Pdf => AnalysisResult(GuestPdfSummary, [GuestPdfPoint, GuestAnalysisUnavailable], 0.8, OfKind(Pdf))
    case Audio => AnalysisResult(GuestAudioSummary, [GuestAudioPoint, GuestAnalysisUnavailable], 0.7, OfKind(Audio))
    case YouTube => AnalysisResult(GuestVideoPrefix + videoId + GuestVideoSuffix, [GuestVideoPoint, GuestAnalysisUnavailable], 0.7, OfKind(YouTube))
    case NoteSummary => AnalysisResult(GuestNoteSummary, [GuestNotePoint, GuestSummaryUnavailable], 0.9, OfKind(NoteSummary))
  }

  /** The summary used when the provider's summary is missing or empty. */
  function DefaultSummary(k: Kind, videoId: string): string
  {
    match k
    case Image => DefaultImageSummary
    case Pdf => DefaultPdfSummary
    case Audio => DefaultAudioSummary
    case YouTube => DefaultVideoPrefix + videoId
    case NoteSummary => DefaultNoteSummary
  }

  /** The key points used when the provider sent none (`null` or absent). */
  function DefaultKeyPoints(k: Kind): seq<string>
  {
    match k
    case Image => []
    case Pdf => []
    case Audio => DefaultAudioPoints
    case YouTube => DefaultVideoPoints
    case NoteSummary => []
  }

  /** The confidence used when the provider's confidence is missing or zero. */
  function DefaultConfidence(k: Kind): real
  {
    match k
    case Image => 0.8
    case Pdf => 0.8
    case Audio => 0.7
    case YouTube => 0.7
    case NoteSummary => 0.95
  }

  /** The fixed summary of the error-shaped result. */
  function ErrorSummary(k: Kind): string
  {
    match k
    case Image => ImageErrorSummary
    case Pdf => PdfErrorSummary
    case Audio => AudioErrorSummary
    case YouTube => VideoErrorSummary
    case NoteSummary => NoteErrorSummary
  }

  /** The one result shape every failure is turned into. */
  function ErrorResult(k: Kind): (r: AnalysisResult)
    ensures r.kind == ErrorType && r.keyPoints == [] && r.confidence == 0.0
    ensures |r.summary| > 0
  {
    AnalysisResult(ErrorSummary(k), [], 0.0, ErrorType)
  }

  /** JavaScript falsiness of a parsed number field: absent, `null` or zero. */
  predicate FalsyNumber(v: Option<real>)
  {
    v.None? || v == Some(0.0)
  }

  /**
    `{summary: p.summary || d1, keyPoints: p.keyPoints || d2, confidence: p.confidence || d3, type: tag}`.
    An array is never falsy in JavaScript, so an empty key-point list is kept.
   */
  function Normalize(k: Kind, videoId: string, summary: Option<string>, keyPoints: Option<seq<string>>, confidence: Option<real>): (r: AnalysisResult)
    ensures r.kind == OfKind(k)
  {
    AnalysisResult(
      if Falsy(summary) then DefaultSummary(k, videoId) else summary.value,
      keyPoints.GetOr(DefaultKeyPoints(k)),
      if FalsyNumber(confidence) then DefaultConfidence(k) else confidence.value,
      OfKind(k))
  }

  /** What an analysis of kind `k` returns once the request itself is acceptable. */
  function Outcome(k: Kind, videoId: string, hasKey: bool, reply: ProviderReply): (r: AnalysisResult)
    ensures r.kind == ErrorType || r.kind == OfKind(k)
    ensures r.kind == ErrorType <==> hasKey && reply.Failed?
    ensures r.kind == ErrorType ==> r == ErrorResult(k)
  {
    if !hasKey then GuestResult(k, videoId)
    else match reply
      case Failed => ErrorResult(k)
      case Parsed(s, kp, c) => Normalize(k, videoId, s, kp, c)
  }

  /**
    The five `analyze*Server` / `summarizeNoteServer` functions. A YouTube link
    is checked before the key: an unusable link is an error even in guest mode.
   */
  function Analyze(req: Request, hasKey: bool, reply: ProviderReply): (r: AnalysisResult)
    ensures r.kind == ErrorType || r.kind == OfKind(KindOf(req))
    ensures r.kind == ErrorType <==> InvalidLink(req) || (hasKey && reply.Failed?)
    ensures r.kind == ErrorType ==> r == ErrorResult(KindOf(req))
  {
    match req
    case YouTubeLink(url) =>
      (match ExtractVideoId(url)
       case None => ErrorResult(YouTube)
       case Some(v) => Outcome(YouTube, v, hasKey, reply))
    case _ => Outcome(KindOf(req), "", hasKey, reply)
  }

  /** A YouTube link from which no video id can be extracted. */
  predicate InvalidLink(req: Request)
  {
    req.YouTubeLink? && ExtractVideoId(req.url).None?
  }

  /** The video id of a YouTube link, or the empty string for every other request. */
  function VideoIdOf(req: Request): string
  {
    if req.YouTubeLink? then ExtractVideoId(req.url).GetOr("") else ""
  }

  /**
    Guest mode: without a key, every acceptable request gets its kind's canned
    result, with two key points and a confidence in (0, 1], whatever the
    provider would have said.
   */
  lemma GuestModeResult(req: Request, reply: ProviderReply, other: ProviderReply)
    requires !InvalidLink(req)
    ensures var r := Analyze(req, false, reply);
      && r == GuestResult(KindOf(req), VideoIdOf(req))
      && r.kind == OfKind(KindOf(req))
      && |r.keyPoints| == 2
      && 0.0 < r.confidence <= 1.0
      && r == Analyze(req, false, other)
  {
    GuestShape(KindOf(req), VideoIdOf(req));
  }

  /** The guest-mode YouTube summary names the extracted video id. */
  lemma GuestYouTubeNamesVideo(url: string, reply: ProviderReply)
    requires ExtractVideoId(url).Some?
    ensures Text.Includes(Analyze(YouTubeLink(url), false, reply).summary, ExtractVideoId(url).value)
  {
    var v := ExtractVideoId(url).value;
    var s := Analyze(YouTubeLink(url), false, reply).summary;
    assert s[|GuestVideoPrefix|..|GuestVideoPrefix| + |v|] == v;
    assert Text.OccursAt(s, v, |GuestVideoPrefix|);
    Text.IncludesSpec(s, v);
  }

  /**
    With a key and a parsed reply, each field is the provider's unless it is
    falsy, the kind's default otherwise; the tag is the request's own kind,
    whatever the provider claimed.
   */
  lemma ParsedReplyNormalized(req: Request, s: Option<string>, kp: Option<seq<string>>, c: Option<real>)
    requires !InvalidLink(req)
    ensures var r := Analyze(req, true, Parsed(s, kp, c));
      && r.kind == OfKind(KindOf(req))
      && (Falsy(s) ==> r.summary == DefaultSummary(KindOf(req), VideoIdOf(req)))
      && (!Falsy(s) ==> r.summary == s.value)
      && (kp.None? ==> r.keyPoints == DefaultKeyPoints(KindOf(req)))
      && (kp.Some? ==> r.keyPoints == kp.value)
      && (FalsyNumber(c) ==> r.confidence == DefaultConfidence(KindOf(req)))
      && (!FalsyNumber(c) ==> r.confidence == c.value)
  {
  }

  /** The canned guest result of each kind is tagged with that kind and has two key points. */
  lemma GuestShape(k: Kind, videoId: string)
    ensures |GuestResult(k, videoId).summary| > 0 && |GuestResult(k, videoId).keyPoints| == 2
    ensures 0.0 < GuestResult(k, videoId).confidence <= 1.0
    ensures GuestResult(k, videoId).kind == OfKind(k)
  {
    match k
    case Image =>
    case Pdf =>
    case Audio =>
    case YouTube =>
    case NoteSummary =>
  }

  lemma DefaultsShape(k: Kind, videoId: string)
    ensures |DefaultSummary(k, videoId)| > 0 && 0.0 < DefaultConfidence(k) <= 1.0
  {
    match k
    case Image =>
    case Pdf =>
    case Audio =>
    case YouTube =>
    case NoteSummary =>
  }

  lemma ErrorSummaryNonEmpty(k: Kind)
    ensures |ErrorSummary(k)| > 0
  {
    match k
    case Image =>
    case Pdf =>
    case Audio =>
    case YouTube =>
    case NoteSummary =>
  }

  /**
    Every result is usable by the client: its summary is never empty, and its
    confidence is zero exactly when it is the error shape.
   */
  lemma ResultDistinguishesErrors(req: Request, hasKey: bool, reply: ProviderReply)
    ensures var r := Analyze(req, hasKey, reply);
      && |r.summary| > 0
      && (r.confidence == 0.0 <==> r.kind == ErrorType)
  {
    var k, v := KindOf(req), VideoIdOf(req);
    var r := Analyze(req, hasKey, reply);
    if InvalidLink(req) || (hasKey && reply.Failed?) {
      ErrorSummaryNonEmpty(k);
      assert r == ErrorResult(k);
    } else if !hasKey {
      GuestShape(k, v);
      assert r == GuestResult(k, v);
    } else {
      DefaultsShape(k, v);
      assert r == Normalize(k, v, reply.summary, reply.keyPoints, reply.confidence);
    }
  }

  /** An unusable YouTube link is reported as an error with or without a key. */
  lemma InvalidLinkIsError(url: string, hasKey: bool, reply: ProviderReply)
    requires ExtractVideoId(url).None?
    ensures Analyze(YouTubeLink(url), hasKey, reply) == ErrorResult(YouTube)
  {
  }

  /** A short link yields the id after `youtu.be/`. */
  lemma ShortLinkExample()
    ensures ExtractVideoId("youtu.be/abc123") == Some("abc123")
  {
    assert "youtu.be/abc123" == ShortMarker + "abc123" + "";
    ExtractAfterMarker(ShortMarker, "abc123", "");
  }

  /** A watch link yields the `v` parameter, up to the next `&`. */
  lemma WatchLinkExample()
    ensures ExtractVideoId("youtube.com/watch?v=abc&t=1") == Some("abc")
  {
    assert "youtube.com/watch?v=abc&t=1" == WatchMarker + "abc" + "&t=1";
    ExtractAfterMarker(WatchMarker, "abc", "&t=1");
  }
}
