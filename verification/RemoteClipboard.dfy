/**
 Fetching the client's clipboard (src/clipboard/backend.rs).

 Responses to format-data requests carry no tag (sections 2.2.5.1 and 2.2.5.2 of MS-RDPECLIP), so the
 backend keeps one request outstanding: a newer format list first drains the answer that is still
 due and only then asks for the newest selection.  A one-shot candidate recognises the answer
 that merely echoes a local copy.
 */
module RemoteClipboard {
  import Sets
  import opened Regions
  import opened LineEndings

  const MAX_CLIPBOARD_SIZE: nat := 100 * 1024 * 1024
  const CF_DIB: nat := 8
  const CF_UNICODETEXT: nat := 13
  const CF_DIBV5: nat := 17

  datatype Format = Format(id: nat, fileList: bool)

  /** What to ask for: a format and, for a file list, the inbound generation it belongs to. */
  datatype Selection = Selection(format: nat, fileGeneration: Option<nat>)

  datatype RemoteRequest = Waiting(fileGeneration: Option<nat>) | Draining(next: Option<Selection>)

  datatype Candidate = Candidate(text: Option<string>, dib: Option<seq<u8>>)

  datatype PendingWrite = Text(text: string) | Image(png: seq<u8>)

  datatype Response = Error | Data(bytes: seq<u8>)

  /** Decoders that live in other libraries. */
  datatype Decoders = Decoders(utf16: seq<u8> -> string, dib: seq<u8> -> Option<seq<u8>>, dibV5: seq<u8> -> Option<seq<u8>>)

  /** The inbound file service: whether it accepts files, and its current generation. */
  datatype Inbound = Inbound(enabled: bool, generation: Option<nat>)

  predicate TakesFiles(service: Option<Inbound>) { service.Some? && service.value.enabled }

  predicate Has(formats: seq<Format>, id: nat) {
    exists i :: 0 <= i < |formats| && formats[i].id == id
  }

  /** The first format registered as a file list. */
  function FileListFormat(formats: seq<Format>): Option<nat> {
    if formats == [] then None
    else if formats[0].fileList then Some(formats[0].id)
    else FileListFormat(formats[1..])
  }

  /** Files if the service takes them, then text, then images with the richer format first. */
  function Choose(formats: seq<Format>, filesEnabled: bool, generation: Option<nat>): Option<Selection> {
    var file := if filesEnabled then FileListFormat(formats) else None;
    if file.Some? then Some(Selection(file.value, generation))
    else if Has(formats, CF_UNICODETEXT) then Some(Selection(CF_UNICODETEXT, None))
    else if Has(formats, CF_DIBV5) then Some(Selection(CF_DIBV5, None))
    else if Has(formats, CF_DIB) then Some(Selection(CF_DIB, None))
    else None
  }

  /** Position `k` is the first registered file list. */
  ghost predicate FirstFileList(formats: seq<Format>, k: int) {
    0 <= k < |formats| && formats[k].fileList && forall j :: 0 <= j < k ==> !formats[j].fileList
  }

  /**
   What a format list makes us ask for: its first file list if the service takes files; else text (13); else
   an image, in the richer format (17) if both are there (8); else nothing.
   */
  ghost predicate AsksFor(formats: seq<Format>, files: bool, wanted: Option<nat>) {
    if files && exists k :: FirstFileList(formats, k) then exists k :: FirstFileList(formats, k) && wanted == Some(formats[k].id)
    else if exists k :: 0 <= k < |formats| && formats[k].id == 13 then wanted == Some(13)
    else if exists k :: 0 <= k < |formats| && formats[k].id == 17 then wanted == Some(17)
    else if exists k :: 0 <= k < |formats| && formats[k].id == 8 then wanted == Some(8)
    else wanted == None
  }

  lemma {:induction false} FileListFound(formats: seq<Format>)
    ensures if FileListFormat(formats).Some? then exists k :: FirstFileList(formats, k) && formats[k].id == FileListFormat(formats).value
            else forall k :: 0 <= k < |formats| ==> !formats[k].fileList
    decreases |formats|
  {
    if formats == [] {
    } else if formats[0].fileList {
      assert FirstFileList(formats, 0);
    } else {
      FileListFound(formats[1..]);
      if FileListFormat(formats[1..]).Some? {
        var k :| FirstFileList(formats[1..], k) && formats[1..][k].id == FileListFormat(formats[1..]).value;
        assert FirstFileList(formats, k + 1);
      } else {
        assert forall k :: 0 < k < |formats| ==> formats[k] == formats[1..][k - 1];
      }
    }
  }

  /** The selection obeys that, and only a file list belongs to an inbound generation. */
  lemma ChoiceObeys(formats: seq<Format>, files: bool, generation: Option<nat>)
    ensures AsksFor(formats, files, FormatOf(Choose(formats, files, generation)))
    ensures Choose(formats, files, generation).Some? ==>
              Choose(formats, files, generation).value.fileGeneration ==
              if files && exists k :: FirstFileList(formats, k) then generation else None
  {
    FileListFound(formats);
    if FileListFormat(formats).Some? {
      var k :| FirstFileList(formats, k) && formats[k].id == FileListFormat(formats).value;
      forall other | FirstFileList(formats, other)
        ensures other == k
      {
      }
    }
  }

  function FormatOf(selection: Option<Selection>): Option<nat> {
    if selection.Some? then Some(selection.value.format) else None
  }

  /** What a response in a requested format has to say to the Wayland side. */
  function Publication(format: nat, bytes: seq<u8>, d: Decoders): (write: Option<PendingWrite>)
    ensures forall text: string :: write == Some(Text(text)) <==> format == 13 && d.utf16(bytes) != [] && text == NormalizeLf(d.utf16(bytes))
    ensures forall png: seq<u8> :: write == Some(Image(png)) <==>
              (format == 17 && d.dibV5(bytes) == Some(png)) || (format == 8 && d.dib(bytes) == Some(png))
  {
    if format == CF_DIBV5 then ImageOf(d.dibV5(bytes))
    else if format == CF_DIB then ImageOf(d.dib(bytes))
    else if format == CF_UNICODETEXT && d.utf16(bytes) != [] then Some(Text(NormalizeLf(d.utf16(bytes))))
    else None
  }

  function ImageOf(png: Option<seq<u8>>): Option<PendingWrite> {
    if png.Some? then Some(Image(png.value)) else None
  }

  /** The response only repeats what was announced: the same image bytes, or the same lines of text. */
  predicate Echoes(format: nat, bytes: seq<u8>, candidate: Option<Candidate>, d: Decoders) {
    candidate.Some? &&
    if format == CF_DIB then candidate.value.dib == Some(bytes)
    else format == CF_UNICODETEXT && d.utf16(bytes) != [] && candidate.value.text.Some? &&
         NormalizeLf(candidate.value.text.value) == NormalizeLf(d.utf16(bytes))
  }

  /** An image in the plain format is an echo exactly when its bytes are the announced ones; one in the richer format never is. */
  lemma EchoedImageIsTheSame(format: nat, bytes: seq<u8>, candidate: Option<Candidate>, d: Decoders)
    requires format == 8 || format == 17
    ensures Echoes(format, bytes, candidate, d) <==> format == 8 && candidate.Some? && candidate.value.dib == Some(bytes)
  {
  }

  /** An echoed text is the announced one for a Windows client as well: their CRLF forms are the same. */
  lemma EchoedTextLooksTheSame(bytes: seq<u8>, announced: string, dib: Option<seq<u8>>, d: Decoders)
    requires d.utf16(bytes) != []
    ensures Echoes(CF_UNICODETEXT, bytes, Some(Candidate(Some(announced), dib)), d) <==> ToCrlf(announced) == ToCrlf(d.utf16(bytes))
  {
    SameLinesEitherWay(announced, d.utf16(bytes));
  }

  /** A response that carries something and no more than 100 MiB. */
  predicate Usable(response: Response) {
    response.Data? && 0 < |response.bytes| <= 104_857_600
  }

  /** A request the client has not answered yet, and the format list it was made for. */
  datatype Outstanding = Outstanding(format: nat, list: nat)

  class Backend {
    const decoders: Decoders
    var remoteRequest: Option<RemoteRequest>
    var lastRequestedFormat: Option<nat>
    var pendingEcho: Option<Candidate>
    var echoCandidate: Option<Candidate>
    var pendingWrite: Option<PendingWrite>
    var inbound: Option<Inbound>

    /** How many format lists the client sent, and what the newest one makes us want. */
    ghost var lists: nat
    ghost var newest: Option<Selection>
    ghost var outstanding: seq<Outstanding>
    /** Local announcements are numbered; a candidate remembers its number. */
    ghost var announcements: nat
    ghost var echoSerial: nat
    ghost var pendingSerial: nat
    ghost var suppressed: set<nat>

    ghost predicate OneRequest()
      reads this
    {
      && (remoteRequest.Some? <==> lastRequestedFormat.Some?)
      && (remoteRequest.Some? <==> outstanding != [])
      && |outstanding| <= 1
      && (outstanding != [] ==> lastRequestedFormat == Some(outstanding[0].format) && outstanding[0].list <= lists)
    }

    ghost predicate LatestWins()
      requires OneRequest()
      reads this
    {
      match remoteRequest
      case None => true
      case Some(Waiting(generation)) =>
        newest == Some(Selection(lastRequestedFormat.value, generation)) && outstanding[0].list == lists
      case Some(Draining(next)) => next == newest && outstanding[0].list < lists
    }

    ghost predicate EchoOnce()
      reads this
    {
      && (forall n :: n in suppressed ==> 1 <= n <= announcements)
      && (echoCandidate.Some? ==> 1 <= echoSerial <= announcements && echoSerial !in suppressed)
      && (pendingEcho.Some? ==> 1 <= pendingSerial <= announcements && pendingSerial !in suppressed)
      && (echoCandidate.Some? && pendingEcho.Some? ==> echoSerial != pendingSerial)
    }

    ghost predicate Valid()
      reads this
    {
      OneRequest() && LatestWins() && EchoOnce()
    }

    constructor (d: Decoders, service: Option<Inbound>)
      ensures Valid() && decoders == d && inbound == service && pendingWrite == None && suppressed == {}
      ensures announcements == 0 && lists == 0 && newest == None && outstanding == []
    {
      decoders, inbound := d, service;
      remoteRequest, lastRequestedFormat, pendingEcho, echoCandidate, pendingWrite := None, None, None, None, None;
      lists, newest, outstanding := 0, None, [];
      announcements, echoSerial, pendingSerial, suppressed := 0, 0, 0, {};
    }

    /** A local copy is announced, with a snapshot of what it holds. */
    method AnnounceLocalFormats(formats: seq<Format>, text: Option<string>, dib: Option<seq<u8>>, sent: bool)
      requires Valid()
      modifies this`echoCandidate, this`announcements, this`echoSerial
      ensures Valid()
      ensures formats == [] ==> echoCandidate == old(echoCandidate) && announcements == old(announcements)
      ensures formats != [] ==> announcements == old(announcements) + 1
      ensures formats != [] ==>
                echoCandidate == if sent
                                 then Some(Candidate(if Has(formats, CF_UNICODETEXT) then text else None,
                                                     if Has(formats, CF_DIB) then dib else None))
                                 else None
    {
      if formats == [] {
        return;
      }
      echoCandidate := Some(Candidate(if Has(formats, CF_UNICODETEXT) then text else None,
                                      if Has(formats, CF_DIB) then dib else None));
      announcements := announcements + 1;
      echoSerial := announcements;
      if !sent {
        echoCandidate := None;
      }
    }

    /** Send a request; both fields are set together or not at all. */
    method RequestRemoteSelection(selection: Selection, sent: bool)
      requires outstanding == [] && remoteRequest == None && lastRequestedFormat == None && EchoOnce()
      requires newest == Some(selection)
      modifies this`remoteRequest, this`lastRequestedFormat, this`pendingEcho, this`outstanding
      ensures Valid()
      ensures if sent then outstanding == [Outstanding(selection.format, lists)] && pendingEcho == old(pendingEcho)
              else outstanding == [] && pendingEcho == None
    {
      if sent {
        lastRequestedFormat := Some(selection.format);
        remoteRequest := Some(Waiting(selection.fileGeneration));
        outstanding := [Outstanding(selection.format, lists)];
        return;
      }
      pendingEcho := None;
    }

    /** The client sends a format list.  `next` is the generation that the inbound service starts. */
    method OnRemoteCopy(formats: seq<Format>, next: Option<nat>, sent: bool)
      requires Valid()
      modifies this`remoteRequest, this`lastRequestedFormat, this`pendingEcho, this`pendingSerial, this`echoCandidate
      modifies this`inbound, this`lists, this`newest, this`outstanding
      ensures Valid() && lists == old(lists) + 1 && echoCandidate == None
      ensures TakesFiles(inbound) == old(TakesFiles(inbound))
      ensures newest == Choose(formats, TakesFiles(inbound), if inbound.Some? then next else None)
      ensures AsksFor(formats, TakesFiles(inbound), FormatOf(newest))
      ensures newest.Some? ==>
                newest.value.fileGeneration ==
                if TakesFiles(inbound) && (exists k :: FirstFileList(formats, k)) then inbound.value.generation else None
      ensures old(outstanding) != [] ==> outstanding == old(outstanding)
      ensures old(outstanding) == [] ==>
                outstanding == if newest.Some? && sent then [Outstanding(newest.value.format, lists)] else []
      ensures old(outstanding) != [] ==> pendingEcho == if old(echoCandidate).Some? then old(echoCandidate) else old(pendingEcho)
      ensures old(outstanding) == [] ==> pendingEcho == if outstanding != [] then old(echoCandidate) else None
    {
      hide Choose, AsksFor, FirstFileList;
      lists := lists + 1;
      var generation: Option<nat> := None;
      if inbound.Some? {
        inbound := Some(inbound.value.(generation := next));
        generation := next;
      }
      var selection := Choose(formats, inbound.Some? && inbound.value.enabled, generation);
      ChoiceObeys(formats, TakesFiles(inbound), generation);
      Supersede(selection, sent);
    }

    /** The newest list wants `selection`: ask for it, or leave it to be asked for after draining. */
    method Supersede(selection: Option<Selection>, sent: bool)
      requires OneRequest() && EchoOnce() && (outstanding != [] ==> outstanding[0].list < lists)
      modifies this`remoteRequest, this`lastRequestedFormat, this`pendingEcho, this`pendingSerial, this`echoCandidate
      modifies this`newest, this`outstanding
      ensures Valid() && newest == selection && echoCandidate == None
      ensures old(outstanding) != [] ==> outstanding == old(outstanding)
      ensures old(outstanding) == [] ==>
                outstanding == if selection.Some? && sent then [Outstanding(selection.value.format, lists)] else []
      ensures old(outstanding) != [] ==> pendingEcho == if old(echoCandidate).Some? then old(echoCandidate) else old(pendingEcho)
      ensures old(outstanding) == [] ==> pendingEcho == if outstanding != [] then old(echoCandidate) else None
    {
      var taken := echoCandidate;
      echoCandidate := None;
      newest := selection;
      if remoteRequest.Some? || lastRequestedFormat.Some? {
        remoteRequest := Some(Draining(selection));
        if taken.Some? {
          pendingEcho := taken;
          pendingSerial := echoSerial;
        }
        return;
      }
      if selection.None? {
        lastRequestedFormat := None;
        pendingEcho := None;
        return;
      }
      pendingEcho := taken;
      pendingSerial := echoSerial;
      RequestRemoteSelection(selection.value, sent);
    }

    /** No local announcement is left that an answer could be an echo of. */
    ghost predicate Forgotten()
      reads this
    {
      echoCandidate.None? && pendingEcho.None?
    }

    /** The newest selection may still be asked for: a file list only in the inbound service's own generation. */
    ghost predicate MayAsk()
      reads this
    {
      newest.Some? && (newest.value.fileGeneration.None? || (inbound.Some? && inbound.value.generation == newest.value.fileGeneration))
    }

    /** The answer that was due has come; ask for the newest selection if it was superseded. */
    method FinishRemoteRequest(request: RemoteRequest, sent: bool)
      requires outstanding == [] && remoteRequest == None && EchoOnce()
      requires request.Draining? ==> request.next == newest
      modifies this`remoteRequest, this`lastRequestedFormat, this`pendingEcho, this`outstanding
      ensures Valid()
      ensures outstanding == if sent && request.Draining? && MayAsk() then [Outstanding(newest.value.format, lists)] else []
      ensures pendingEcho == if outstanding != [] then old(pendingEcho) else None
    {
      lastRequestedFormat := None;
      if !(request.Draining? && request.next.Some?) {
        pendingEcho := None;
        return;
      }
      var selection := request.next.value;
      if selection.fileGeneration.Some? &&
         (if inbound.Some? then inbound.value.generation else None) != selection.fileGeneration {
        pendingEcho := None;
        return;
      }
      RequestRemoteSelection(selection, sent);
    }

    /** Publish the answer to the request, unless it echoes the local copy that the candidate describes. */
    method HandleFormatDataResponse(response: Response) returns (echo: bool)
      modifies this`lastRequestedFormat, this`pendingEcho, this`pendingWrite
      ensures lastRequestedFormat == None && pendingEcho == None
      ensures var asked := old(lastRequestedFormat);
              && (!Usable(response) || asked.None? ==> !echo && pendingWrite == old(pendingWrite))
              && (Usable(response) && asked.Some? ==>
                    && echo == Echoes(asked.value, response.bytes, old(pendingEcho), decoders)
                    && pendingWrite == if echo || Publication(asked.value, response.bytes, decoders).None? then old(pendingWrite)
                                       else Publication(asked.value, response.bytes, decoders))
    {
      var requested := lastRequestedFormat;
      var candidate := pendingEcho;
      lastRequestedFormat, pendingEcho, echo := None, None, false;
      if response.Error? || response.bytes == [] || |response.bytes| > MAX_CLIPBOARD_SIZE || requested.None? {
        return;
      }
      var bytes := response.bytes;
      if requested.value == CF_DIBV5 {
        var png := decoders.dibV5(bytes);
        if png.Some? {
          pendingWrite := Some(Image(png.value));
        }
      } else if requested.value == CF_DIB {
        if candidate.Some? && candidate.value.dib == Some(bytes) {
          return true;
        }
        var png := decoders.dib(bytes);
        if png.Some? {
          pendingWrite := Some(Image(png.value));
        }
      } else if requested.value == CF_UNICODETEXT {
        var utf8 := decoders.utf16(bytes);
        if utf8 == [] {
          return;
        }
        var normalized := NormalizeLfText(utf8);
        if candidate.Some? && candidate.value.text.Some? {
          var announced := NormalizeLfText(candidate.value.text.value);
          if announced == normalized {
            return true;
          }
        }
        pendingWrite := Some(Text(normalized));
      }
    }

    /** The outstanding request was made for an older format list. */
    ghost predicate Superseded()
      requires Valid()
      reads this
      ensures Superseded() <==> outstanding != [] && outstanding[0].list < lists
    {
      remoteRequest.Some? && remoteRequest.value.Draining?
    }

    /** The outstanding request was made for the newest format list, and for no inbound generation. */
    ghost predicate Current()
      requires Valid()
      reads this
      ensures Current() <==> outstanding != [] && outstanding[0].list == lists && newest.Some? && newest.value.fileGeneration.None?
      ensures Current() ==> outstanding[0].format == newest.value.format
    {
      remoteRequest == Some(Waiting(None))
    }

    /**
     The client answers.  If the request was made for the newest format list, and not for files, a usable
     answer is published in the format asked for, unless it is an echo or cannot be decoded.  An answer to
     a superseded request is dropped and the newest selection is requested instead.
     */
    method OnFormatDataResponse(response: Response, sent: bool) returns (echo: bool)
      requires Valid()
      modifies this`remoteRequest, this`lastRequestedFormat, this`pendingEcho, this`pendingWrite, this`outstanding, this`suppressed
      ensures Valid()
      ensures outstanding == if old(Superseded()) && sent && MayAsk() then [Outstanding(newest.value.format, lists)] else []
      ensures echo <==> old(Current()) && Usable(response) && Echoes(newest.value.format, response.bytes, old(pendingEcho), decoders)
      ensures pendingWrite == if old(Current()) && Usable(response) && !echo && Publication(newest.value.format, response.bytes, decoders).Some?
                              then Publication(newest.value.format, response.bytes, decoders) else old(pendingWrite)
      ensures |suppressed| == |old(suppressed)| + if echo then 1 else 0
      ensures pendingEcho == if outstanding != [] then old(pendingEcho) else None
    {
      hide Publication, Usable;
      var request := remoteRequest;
      remoteRequest := None;
      outstanding := [];
      echo := false;
      if request.Some? && (request.value.Draining? || request.value.fileGeneration.Some?) {
        FinishRemoteRequest(request.value, sent);
      } else {
        echo := HandleFormatDataResponse(response);
        if echo {
          suppressed := suppressed + {pendingSerial};
        }
      }
    }

    /** The client answers with a file list; it is accepted only for the newest list's generation. */
    method OnRemoteFileList(sent: bool) returns (acceptedFor: Option<nat>)
      requires Valid()
      modifies this`remoteRequest, this`lastRequestedFormat, this`pendingEcho, this`outstanding
      ensures Valid()
      ensures acceptedFor.Some? ==>
                old(outstanding) != [] && old(outstanding)[0].list == lists && newest.Some? && acceptedFor == newest.value.fileGeneration
      ensures acceptedFor.Some? <==> old(remoteRequest).Some? && old(remoteRequest).value.Waiting? && old(remoteRequest).value.fileGeneration.Some?
      ensures outstanding == if old(Superseded()) && sent && MayAsk() then [Outstanding(newest.value.format, lists)] else []
      ensures pendingEcho == if outstanding != [] || old(outstanding) == [] then old(pendingEcho) else None
    {
      acceptedFor := None;
      var request := remoteRequest;
      remoteRequest := None;
      outstanding := [];
      if request.Some? {
        if request.value.Waiting? && request.value.fileGeneration.Some? {
          lastRequestedFormat := None;
          pendingEcho := None;
          acceptedFor := request.value.fileGeneration;
        } else {
          FinishRemoteRequest(request.value, sent);
        }
      }
    }

    /** A local application takes the selection: the inbound generation moves on. */
    method Retire(next: Option<nat>)
      requires Valid()
      modifies this`inbound
      ensures Valid() && TakesFiles(inbound) == old(TakesFiles(inbound))
      ensures inbound == if old(inbound).Some? then Some(old(inbound).value.(generation := next)) else None
    {
      if inbound.Some? {
        inbound := Some(inbound.value.(generation := next));
      }
    }
  }

  /** Distinct numbers from 1 to n: at most n of them. */
  lemma {:induction false} AtMost(s: set<nat>, n: nat)
    requires forall k :: k in s ==> 1 <= k <= n
    ensures |s| <= n
    decreases n
  {
    if n == 0 {
      assert s == {};
    } else {
      var rest := s - {n};
      AtMost(rest, n - 1);
      assert s <= rest + {n};
      assert |rest + {n}| == |rest| + 1;
      Sets.SubsetCard(s, rest + {n});
    }
  }

  /** No announcement suppresses two answers. */
  lemma EachOnce(b: Backend)
    requires b.Valid()
    ensures |b.suppressed| <= b.announcements
  {
    AtMost(b.suppressed, b.announcements);
  }

  datatype Event =
    | LocalCopy(formats: seq<Format>, text: Option<string>, dib: Option<seq<u8>>, sent: bool)
    | RemoteCopy(formats: seq<Format>, next: Option<nat>, sent: bool)
    | Answer(response: Response, sent: bool)
    | FileAnswer(sent: bool)
    | LocalOwner(next: Option<nat>)

  predicate Answers(e: Event) { e.Answer? || e.FileAnswer? }

  method Apply(b: Backend, e: Event) returns (suppression: bool)
    requires b.Valid()
    modifies b
    ensures b.Valid() && TakesFiles(b.inbound) == old(TakesFiles(b.inbound))
    ensures b.announcements == old(b.announcements) + if e.LocalCopy? && e.formats != [] then 1 else 0
    ensures |b.suppressed| == |old(b.suppressed)| + if suppression then 1 else 0
    ensures b.lists == old(b.lists) + if e.RemoteCopy? then 1 else 0
    ensures if e.RemoteCopy? then FormatOf(b.newest) == Wanted(e.formats, TakesFiles(b.inbound)) else b.newest == old(b.newest)
    ensures !Answers(e) && old(b.outstanding) != [] ==> b.outstanding == old(b.outstanding)
    ensures !Answers(e) && old(b.outstanding) == [] ==>
              b.outstanding == if e.RemoteCopy? && e.sent && b.newest.Some? then [Outstanding(b.newest.value.format, b.lists)] else []
    ensures e.RemoteCopy? && old(b.Forgotten()) ==> b.Forgotten()
    ensures e.RemoteCopy? && b.newest.Some? && !(TakesFiles(b.inbound) && exists k :: FirstFileList(e.formats, k)) ==>
              b.newest.value.fileGeneration == None
    ensures Answers(e) ==>
              b.outstanding == if old(b.Superseded()) && e.sent && b.MayAsk() then [Outstanding(b.newest.value.format, b.lists)] else []
    ensures Answers(e) ==> b.inbound == old(b.inbound) && (old(b.Forgotten()) ==> b.Forgotten())
    ensures suppression ==> !old(b.Forgotten())
    ensures b.pendingWrite == if e.Answer? && old(b.Current()) && Usable(e.response) && !suppression &&
                                 Publication(b.newest.value.format, e.response.bytes, b.decoders).Some?
                              then Publication(b.newest.value.format, e.response.bytes, b.decoders) else old(b.pendingWrite)
  {
    suppression := false;
    match e
    case LocalCopy(formats, text, dib, sent) => b.AnnounceLocalFormats(formats, text, dib, sent);
    case RemoteCopy(formats, next, sent) =>
      b.OnRemoteCopy(formats, next, sent);
      GenerationHasNoPart(formats, TakesFiles(b.inbound), if b.inbound.Some? then next else None);
    case Answer(response, sent) => suppression := b.OnFormatDataResponse(response, sent);
    case FileAnswer(sent) => var _ := b.OnRemoteFileList(sent);
    case LocalOwner(next) => b.Retire(next);
  }

  /** The format a list makes us ask for; the inbound generation has no part in it. */
  function Wanted(formats: seq<Format>, files: bool): Option<nat> {
    FormatOf(Choose(formats, files, None))
  }

  lemma GenerationHasNoPart(formats: seq<Format>, files: bool, generation: Option<nat>)
    ensures FormatOf(Choose(formats, files, generation)) == Wanted(formats, files)
  {
  }

  /** What the newest of the first `n` events' format lists makes us ask for. */
  function NewestFormat(events: seq<Event>, n: nat, files: bool): Option<nat>
    requires n <= |events|
  {
    if n == 0 then None
    else if events[n - 1].RemoteCopy? then Wanted(events[n - 1].formats, files)
    else NewestFormat(events, n - 1, files)
  }

  function RemoteCopies(events: seq<Event>, n: nat): nat
    requires n <= |events|
  {
    if n == 0 then 0 else RemoteCopies(events, n - 1) + if events[n - 1].RemoteCopy? then 1 else 0
  }

  /** Event `at` published `write`; the request it answered was sent at event `asked`, for a list and in a format. */
  datatype Published = Published(asked: nat, at: nat, write: PendingWrite, list: nat, format: nat)

  /** Event `n` would be the first answer to a request sent at event `asked`. */
  ghost predicate Unanswered(events: seq<Event>, asked: nat, n: nat)
    requires n <= |events|
  {
    asked < n && forall j :: asked < j < n ==> !Answers(events[j])
  }

  /** The answer to a request for the newest list, in the format that list makes us ask for. */
  ghost predicate LatestPublished(events: seq<Event>, files: bool, d: Decoders, p: Published) {
    && p.at < |events| && events[p.at].Answer? && Usable(events[p.at].response)
    && Unanswered(events, p.asked, p.at)
    && p.list <= p.asked && events[p.list].RemoteCopy?
    && (forall j :: p.list < j < p.at ==> !events[j].RemoteCopy?)
    && AsksFor(events[p.list].formats, files, Some(p.format))
    && Publication(p.format, events[p.at].response.bytes, d) == Some(p.write)
  }

  /** The event that brought the newest format list. */
  lemma {:induction false} NewestList(events: seq<Event>, n: nat, files: bool) returns (list: nat)
    requires n <= |events| && NewestFormat(events, n, files).Some?
    ensures list < n && events[list].RemoteCopy? && (forall j :: list < j < n ==> !events[j].RemoteCopy?)
    ensures AsksFor(events[list].formats, files, NewestFormat(events, n, files))
    decreases n
  {
    if events[n - 1].RemoteCopy? {
      list := n - 1;
      ChoiceObeys(events[list].formats, files, None);
    } else {
      list := NewestList(events, n - 1, files);
    }
  }

  lemma {:induction false} SameCountNoCopy(events: seq<Event>, from: nat, n: nat)
    requires from <= n <= |events|
    ensures RemoteCopies(events, from) <= RemoteCopies(events, n)
    ensures RemoteCopies(events, from) == RemoteCopies(events, n) ==> forall j :: from <= j < n ==> !events[j].RemoteCopy?
    decreases n
  {
    if from == n {
    } else {
      SameCountNoCopy(events, from, n - 1);
    }
  }

  /** How many of the events announce a local copy. */
  function LocalCopies(events: seq<Event>): nat {
    if events == [] then 0
    else LocalCopies(events[..|events| - 1]) +
         if events[|events| - 1].LocalCopy? && events[|events| - 1].formats != [] then 1 else 0
  }

  /** What the backend knows of the first `n` events, and what they published. */
  ghost predicate Recorded(b: Backend, events: seq<Event>, n: nat, files: bool, asked: nat, log: seq<Published>)
    requires n <= |events|
    reads b
  {
    && b.Valid() && TakesFiles(b.inbound) == files
    && b.lists == RemoteCopies(events, n) && FormatOf(b.newest) == NewestFormat(events, n, files)
    && (b.outstanding != [] ==> Unanswered(events, asked, n) && b.outstanding[0].list == RemoteCopies(events, asked + 1))
    && (forall j :: 0 <= j < |log| ==> LatestPublished(events, files, b.decoders, log[j]))
    && b.pendingWrite == if log == [] then None else Some(log[|log| - 1].write)
  }

  method Handle(b: Backend, events: seq<Event>, k: nat, ghost files: bool, ghost asked: nat, ghost log: seq<Published>)
    returns (suppression: bool, ghost asked': nat, ghost log': seq<Published>)
    requires k < |events| && Recorded(b, events, k, files, asked, log)
    modifies b
    ensures Recorded(b, events, k + 1, files, asked', log')
    ensures b.announcements == old(b.announcements) + if events[k].LocalCopy? && events[k].formats != [] then 1 else 0
    ensures |b.suppressed| == |old(b.suppressed)| + if suppression then 1 else 0
  {
    hide Backend.Valid, Publication, Choose, Wanted, Usable, TakesFiles, LatestPublished, Unanswered;
    ghost var before, due := b.pendingWrite, b.outstanding != [];
    log' := log;
    suppression := Apply(b, events[k]);
    if b.pendingWrite != before {
      ghost var p := AnswerIsLatest(events, files, b.decoders, asked, k, b.pendingWrite.value);
      log' := log + [p];
    }
    asked' := if Answers(events[k]) || !due then k else asked;
    if b.outstanding != [] {
      StillUnanswered(events, asked, asked', k);
    }
  }

  /** A list with text or an image, and no file list that is taken, makes us ask for one of these. */
  lemma WantsNoFile(formats: seq<Format>, files: bool)
    requires !(files && exists k :: FirstFileList(formats, k))
    requires exists k :: 0 <= k < |formats| && formats[k].id in [13, 17, 8]
    ensures Wanted(formats, files).Some? && AsksFor(formats, false, Wanted(formats, files))
  {
    ChoiceObeys(formats, files, None);
    hide Choose;
    var k :| 0 <= k < |formats| && formats[k].id in [13, 17, 8];
  }

  /**
   What the client copied last arrives.  With no announcement left to echo, a text or an image it copies
   is published once it answers: at the first answer if no request was outstanding, else at the second, the
   first being dropped and the request sent again.
   */
  method NewestArrives(b: Backend, formats: seq<Format>, next: Option<nat>, first: Response, second: Response)
    returns (answers: nat, ghost wanted: nat)
    requires b.Valid() && b.Forgotten() && Usable(first) && Usable(second)
    requires !(TakesFiles(b.inbound) && exists k :: FirstFileList(formats, k))
    requires exists k :: 0 <= k < |formats| && formats[k].id in [13, 17, 8]
    requires forall format :: AsksFor(formats, false, Some(format)) ==>
               Publication(format, first.bytes, b.decoders).Some? && Publication(format, second.bytes, b.decoders).Some?
    modifies b
    ensures b.Valid() && answers == if old(b.outstanding) == [] then 1 else 2
    ensures AsksFor(formats, false, Some(wanted)) && b.outstanding == []
    ensures b.pendingWrite == Publication(wanted, (if answers == 1 then first else second).bytes, b.decoders)
  {
    hide AsksFor, FirstFileList, Usable, TakesFiles, Publication, Wanted;
    WantsNoFile(formats, TakesFiles(b.inbound));
    var _ := Apply(b, RemoteCopy(formats, next, true));
    var _ := Apply(b, Answer(first, true));
    answers := 1;
    wanted := b.newest.value.format;
    if b.remoteRequest.Some? {
      var _ := Apply(b, Answer(second, true));
      answers := 2;
    }
  }

  lemma AnswerIsLatest(events: seq<Event>, files: bool, d: Decoders, asked: nat, k: nat, write: PendingWrite) returns (p: Published)
    requires k < |events| && events[k].Answer? && Usable(events[k].response) && Unanswered(events, asked, k)
    requires RemoteCopies(events, asked + 1) == RemoteCopies(events, k) && NewestFormat(events, k, files).Some?
    requires Publication(NewestFormat(events, k, files).value, events[k].response.bytes, d) == Some(write)
    ensures LatestPublished(events, files, d, p) && p.write == write
  {
    hide Publication, Usable, NewestFormat, AsksFor;
    SameCountNoCopy(events, asked + 1, k);
    var list := NewestList(events, k, files);
    p := Published(asked, k, write, list, NewestFormat(events, k, files).value);
  }

  lemma StillUnanswered(events: seq<Event>, asked: nat, asked': nat, k: nat)
    requires k < |events|
    requires asked' == k || (asked' == asked && Unanswered(events, asked, k) && !Answers(events[k]))
    ensures Unanswered(events, asked', k + 1)
  {
  }

  /**
   In any run, no more answers are dropped as echoes than local copies were announced.  Whatever is
   published is the first answer to a request that was sent after the newest format list arrived, in the
   format that list made us ask for; so no answer to a superseded request ever reaches the Wayland side.
   */
  method Run(d: Decoders, service: Option<Inbound>, events: seq<Event>)
    returns (suppressions: nat, published: Option<PendingWrite>, ghost log: seq<Published>)
    ensures suppressions <= LocalCopies(events)
    ensures forall k :: 0 <= k < |log| ==> LatestPublished(events, TakesFiles(service), d, log[k])
    ensures published == if log == [] then None else Some(log[|log| - 1].write)
  {
    var b := new Backend(d, service);
    hide Backend.Valid, LatestPublished, Unanswered, TakesFiles;
    suppressions, log := 0, [];
    ghost var asked := 0;
    var k := 0;
    while k < |events|
      invariant 0 <= k <= |events| && fresh(b) && b.decoders == d
      invariant Recorded(b, events, k, TakesFiles(service), asked, log)
      invariant suppressions == |b.suppressed| && b.announcements == LocalCopies(events[..k])
    {
      hide Recorded;
      var suppression;
      suppression, asked, log := Handle(b, events, k, TakesFiles(service), asked, log);
      suppressions := suppressions + if suppression then 1 else 0;
      assert events[..k + 1][..k] == events[..k];
      k := k + 1;
    }
    assert events[..k] == events;
    EachOnce(b);
    published := b.pendingWrite;
  }
}
