// The update cycle of ceell/ota/ota_client.c: manifest and firmware bodies arrive in
// fragments of any size, and a guarded state machine leads from a check to a reboot.
// Sockets, flash and the boot loader are operations with arbitrary outcomes.
module OtaClient {
  import opened Common
  import opened OtaVersion

  type Byte = b: int | 0 <= b < 256

  const MANIFEST_SIZE: nat := 512
  const URL_LEN: nat := 127
  const MAX_BACKOFF: nat := 3600

  const EIO := 5
  const EINVAL := 22
  const EPROTO := 71
  const ENOBUFS := 105
  const EMSGSIZE := 122

  datatype OtaState = Idle | Checking | Downloading | Validating | Marking | Rebooting | Error

  datatype Manifest = Manifest(version: Option<string>, url: string, size: int)

  // One call of the firmware callback: a body fragment, whether it is the last call, and
  // what writing and flushing would return.
  datatype Call = Call(frag: seq<Byte>, final: bool, writeOk: bool, flushOk: bool)

  // Outcomes of the outside operations in one cycle; negative numbers are error codes.
  datatype Fetch = Fetch(connectRet: int, httpRet: int, frags: seq<seq<Byte>>)
  datatype Download = Download(
    openRet: int, eraseRet: int, initRet: int, connectRet: int, httpRet: int, calls: seq<Call>)
  datatype Cycle = Cycle(fetch: Fetch, download: Download, confirmed: bool, confirmRet: int, upgradeRet: int)

  // The JSON decoder, a pure function of the received text.
  type Decoder = seq<Byte> -> Option<Manifest>

  function Concat(frags: seq<seq<Byte>>): seq<Byte> {
    if |frags| == 0 then [] else Concat(frags[..|frags| - 1]) + frags[|frags| - 1]
  }

  function Bodies(calls: seq<Call>): (r: seq<seq<Byte>>)
    ensures |r| == |calls| && forall k :: 0 <= k < |r| ==> r[k] == calls[k].frag
  {
    seq(|calls|, k requires 0 <= k < |calls| => calls[k].frag)
  }

  // ---------------------------------------------------------------- receiving the manifest

  datatype Collected = Collected(text: seq<Byte>, truncated: bool)

  function CollectOne(c: Collected, frag: seq<Byte>): Collected {
    if |frag| > 0 && !c.truncated then
      if |frag| > MANIFEST_SIZE - 1 - |c.text| then c.(truncated := true) else c.(text := c.text + frag)
    else c
  }

  function Collect(frags: seq<seq<Byte>>): Collected {
    if |frags| == 0 then Collected([], false)
    else CollectOne(Collect(frags[..|frags| - 1]), frags[|frags| - 1])
  }

  // However the body is cut into fragments: it is complete in the buffer and not flagged
  // exactly when it has at most 511 bytes; otherwise a beginning of it is. The buffer
  // never holds more than 511.
  lemma {:induction false} ManifestCollected(frags: seq<seq<Byte>>)
    ensures var c := Collect(frags);
      && (!c.truncated <==> |Concat(frags)| <= 511)
      && (!c.truncated ==> c.text == Concat(frags))
      && c.text <= Concat(frags)
      && |c.text| <= 511
  {
    if |frags| > 0 {
      ManifestCollected(frags[..|frags| - 1]);
    }
  }

  // ---------------------------------------------------------------- writing the firmware

  datatype Flash = Flash(active: bool, written: seq<Byte>, flushed: bool)

  function WriteCall(f: Flash, c: Call): Flash {
    if |c.frag| > 0 && f.active && !c.writeOk then f.(active := false)
    else
      var g := if |c.frag| > 0 && f.active then f.(written := f.written + c.frag) else f;
      if c.final && g.active then
        if c.flushOk then g.(flushed := true) else g.(active := false)
      else g
  }

  function WriteAll(calls: seq<Call>): Flash {
    if |calls| == 0 then Flash(true, [], false)
    else WriteCall(WriteAll(calls[..|calls| - 1]), calls[|calls| - 1])
  }

  predicate NoFlashError(calls: seq<Call>) {
    forall k :: 0 <= k < |calls| ==> (calls[k].frag != [] ==> calls[k].writeOk) && (calls[k].final ==> calls[k].flushOk)
  }

  // What was written is always a beginning of the firmware stream; the stream stays
  // active exactly when no flash operation failed, and then all of it was written and a
  // final call flushed it.
  lemma {:induction false} FirmwareWritten(calls: seq<Call>)
    ensures var f := WriteAll(calls);
      && f.written <= Concat(Bodies(calls))
      && (f.active <==> NoFlashError(calls))
      && (f.active ==> f.written == Concat(Bodies(calls)))
      && (f.active ==> (f.flushed <==> exists k :: 0 <= k < |calls| && calls[k].final))
  {
    if |calls| > 0 {
      var n := |calls| - 1;
      FirmwareWritten(calls[..n]);
      assert Bodies(calls)[..n] == Bodies(calls[..n]);
      NoFlashErrorStep(calls);
      FinalStep(calls);
    }
  }

  lemma NoFlashErrorStep(calls: seq<Call>)
    requires |calls| > 0
    ensures var n := |calls| - 1; var c := calls[n];
      NoFlashError(calls) <==>
        (NoFlashError(calls[..n]) && (c.frag != [] ==> c.writeOk) && (c.final ==> c.flushOk))
  {
    var n := |calls| - 1;
    assert forall k :: 0 <= k < n ==> calls[..n][k] == calls[k];
  }

  lemma FinalStep(calls: seq<Call>)
    requires |calls| > 0
    ensures var n := |calls| - 1;
      (exists k :: 0 <= k < |calls| && calls[k].final) <==>
        ((exists k :: 0 <= k < n && calls[..n][k].final) || calls[n].final)
  {
    var n := |calls| - 1;
    assert forall k :: 0 <= k < n ==> calls[..n][k] == calls[k];
    if k :| 0 <= k < |calls| && calls[k].final {
      assert k < n ==> calls[..n][k].final;
    }
  }

  // ---------------------------------------------------------------- one cycle

  function FetchRet(decode: Decoder, f: Fetch): int {
    if f.connectRet < 0 then f.connectRet
    else if f.httpRet < 0 then f.httpRet
    else if Collect(f.frags).truncated then -ENOBUFS
    else if decode(Collect(f.frags).text).None? then -EPROTO
    else 0
  }

  function DownloadRet(d: Download, url: string, size: int): int {
    var f := WriteAll(d.calls);
    if url == "" || url[0] != '/' then -EPROTO
    else if d.openRet < 0 then d.openRet
    else if d.eraseRet < 0 then d.eraseRet
    else if d.initRet < 0 then d.initRet
    else if d.connectRet < 0 then d.connectRet
    else if d.httpRet < 0 then d.httpRet
    else if !f.active then -EIO
    else if size > 0 && |f.written| != size then -EMSGSIZE
    else 0
  }

  // From the download on.
  function InstallSpec(c: Cycle, url: string, size: int): (seq<OtaState>, int) {
    var ret := DownloadRet(c.download, url, size);
    if ret < 0 then ([Downloading, Error], ret)
    else if !c.confirmed && c.confirmRet < 0 then ([Downloading, Validating, Error], c.confirmRet)
    else if c.upgradeRet < 0 then ([Downloading, Validating, Marking, Error], c.upgradeRet)
    else ([Downloading, Validating, Marking, Rebooting], 0)
  }

  // The states a cycle passes through and what it returns.
  function CycleSpec(decode: Decoder, current: Version, ulongMax: nat, c: Cycle): (seq<OtaState>, int) {
    if FetchRet(decode, c.fetch) < 0 then ([Checking, Idle], FetchRet(decode, c.fetch))
    else
      var decoded := decode(Collect(c.fetch.frags).text);
      if decoded.None? then ([Checking, Idle], -EPROTO)
      else
        var m := decoded.value;
        var remote := if m.version.Some? then ParseSpec(m.version.value, ulongMax) else None;
        if remote.None? then ([Checking, Idle], -EINVAL)
        else if Compare(remote.value, current) <= 0 then ([Checking, Idle], 0)
        else
          var rest := InstallSpec(c, Truncate(m.url, URL_LEN), m.size);
          ([Checking] + rest.0, rest.1)
  }

  // The paths asked of the server for the image: none when something fails before.
  function Asked(d: Download, url: string): seq<string> {
    if url == "" || url[0] != '/' || d.openRet < 0 || d.eraseRet < 0 || d.initRet < 0 || d.connectRet < 0 then []
    else [url]
  }

  function AskedInCycle(decode: Decoder, current: Version, ulongMax: nat, c: Cycle): seq<string> {
    if FetchRet(decode, c.fetch) < 0 then []
    else
      var decoded := decode(Collect(c.fetch.frags).text);
      if decoded.None? then []
      else
        var m := decoded.value;
        var remote := if m.version.Some? then ParseSpec(m.version.value, ulongMax) else None;
        if remote.None? || Compare(remote.value, current) <= 0 then [] else Asked(c.download, Truncate(m.url, URL_LEN))
  }

  // The manifest arrives whole and names a version.
  ghost predicate Readable(decode: Decoder, ulongMax: nat, f: Fetch) {
    var body := Concat(f.frags);
    && f.connectRet >= 0 && f.httpRet >= 0
    && |body| <= 511
    && decode(body).Some?
    && decode(body).value.version.Some?
    && ParseSpec(decode(body).value.version.value, ulongMax).Some?
  }

  // That version is strictly greater than the running one.
  ghost predicate NewerOffered(decode: Decoder, current: Version, ulongMax: nat, f: Fetch) {
    && Readable(decode, ulongMax, f)
    && Rank(ParseSpec(decode(Concat(f.frags)).value.version.value, ulongMax).value) > Rank(current)
  }

  // The image arrives: every flash operation succeeds, and the bytes received are as many
  // as the manifest says when that is positive.
  ghost predicate ImageArrives(url: string, size: int, d: Download) {
    && url != "" && url[0] == '/'
    && d.openRet >= 0 && d.eraseRet >= 0 && d.initRet >= 0 && d.connectRet >= 0 && d.httpRet >= 0
    && NoFlashError(d.calls)
    && (size > 0 ==> |Concat(Bodies(d.calls))| == size)
  }

  ghost predicate Confirmed(c: Cycle) {
    c.confirmed || c.confirmRet >= 0
  }

  // Everything that has to hold for a cycle to end in a reboot, said of its inputs.
  ghost predicate MayReboot(decode: Decoder, current: Version, ulongMax: nat, c: Cycle) {
    && NewerOffered(decode, current, ulongMax, c.fetch)
    && (var manifest := decode(Concat(c.fetch.frags)).value;
        ImageArrives(manifest.url, manifest.size, c.download))
    && Confirmed(c)
    && c.upgradeRet >= 0
  }

  lemma ParsedIsValid(s: string, ulongMax: nat)
    requires ParseSpec(s, ulongMax).Some?
    ensures ParseSpec(s, ulongMax).value.Valid()
  {
  }

  // The states of every cycle, from its inputs: back to IDLE exactly when the check offers
  // nothing newer; ERROR exactly from DOWNLOADING when the image does not arrive, from
  // VALIDATING when the running image cannot be confirmed, and from MARKING when the
  // upgrade request fails; REBOOTING when nothing of that happens.
  lemma {:induction false} CycleStates(decode: Decoder, current: Version, ulongMax: nat, c: Cycle)
    requires current.Valid()
    ensures CycleSpec(decode, current, ulongMax, c).0 ==
      if !NewerOffered(decode, current, ulongMax, c.fetch) then [Checking, Idle]
      else
        var manifest := decode(Concat(c.fetch.frags)).value;
        if !ImageArrives(manifest.url, manifest.size, c.download) then [Checking, Downloading, Error]
        else if !Confirmed(c) then [Checking, Downloading, Validating, Error]
        else if c.upgradeRet < 0 then [Checking, Downloading, Validating, Marking, Error]
        else [Checking, Downloading, Validating, Marking, Rebooting]
  {
    hide ParseSpec, Collect, WriteAll, Concat, NoFlashError, Compare;
    ManifestCollected(c.fetch.frags);
    FirmwareWritten(c.download.calls);
    var decoded := decode(Collect(c.fetch.frags).text);
    if decoded.Some? && decoded.value.version.Some? {
      var remote := ParseSpec(decoded.value.version.value, ulongMax);
      if remote.Some? {
        ParsedIsValid(decoded.value.version.value, ulongMax);
        CompareIsRankOrder(remote.value, current);
      }
    }
  }

  // A cycle ends in REBOOTING exactly when the manifest arrived whole, its version is
  // strictly greater than the running one, every byte of the image was written, the
  // total matches the manifest's size when that is positive, the running image is
  // confirmed and the upgrade request succeeded; in IDLE exactly when nothing newer was
  // offered.
  lemma {:induction false} RebootExactlyWhenGuarded(decode: Decoder, current: Version, ulongMax: nat, c: Cycle)
    requires current.Valid()
    ensures var trace := CycleSpec(decode, current, ulongMax, c).0;
      && |trace| > 0
      && (trace[|trace| - 1] == Rebooting <==> MayReboot(decode, current, ulongMax, c))
      && (trace[|trace| - 1] == OtaState.Idle <==> !NewerOffered(decode, current, ulongMax, c.fetch))
      && (trace[|trace| - 1] == Error <==>
            NewerOffered(decode, current, ulongMax, c.fetch) && !MayReboot(decode, current, ulongMax, c))
  {
    hide NewerOffered, ImageArrives, CycleSpec;
    CycleStates(decode, current, ulongMax, c);
  }

  // State s comes directly before ERROR in this cycle.
  ghost predicate FailsFrom(decode: Decoder, current: Version, ulongMax: nat, c: Cycle, s: OtaState) {
    var trace := CycleSpec(decode, current, ulongMax, c).0;
    exists k :: 0 < k < |trace| && trace[k - 1] == s && trace[k] == Error
  }

  // ERROR is not reachable from every active state: it is entered from DOWNLOADING,
  // VALIDATING and MARKING, in some cycle each, and from no other state in any.
  lemma {:induction false} ErrorReachedExactlyFrom(s: OtaState)
    ensures (exists decode, current: Version, ulongMax, c ::
               current.Valid() && FailsFrom(decode, current, ulongMax, c, s))
      <==> s in {Downloading, Validating, Marking}
  {
    hide CycleSpec, NewerOffered, ImageArrives;
    forall decode, current: Version, ulongMax, c | current.Valid() && FailsFrom(decode, current, ulongMax, c, s)
      ensures s in {Downloading, Validating, Marking}
    {
      CycleStates(decode, current, ulongMax, c);
    }
    if s in {Downloading, Validating, Marking} {
      var decode, c := FailingCycle(s);
      assert FailsFrom(decode, Version(0, 0, 0), 65536, c, s);
    }
  }

  // A newer version is offered, and then the download, the confirmation or the upgrade
  // request fails.
  lemma {:induction false} FailingCycle(s: OtaState) returns (decode: Decoder, c: Cycle)
    requires s in {Downloading, Validating, Marking}
    ensures FailsFrom(decode, Version(0, 0, 0), 65536, c, s)
  {
    hide CycleSpec, NewerOffered, Concat;
    decode := OfferNewer();
    c := Cycle(Fetch(0, 0, []), Download(if s == Downloading then -1 else 0, 0, 0, 0, 0, []), false,
               if s == Validating then -1 else 0, -1);
    CycleStates(decode, Version(0, 0, 0), 65536, c);
    var trace := CycleSpec(decode, Version(0, 0, 0), 65536, c).0;
    assert trace[|trace| - 1] == Error && trace[|trace| - 2] == s;
  }

  lemma OfferNewer() returns (decode: Decoder)
    ensures NewerOffered(decode, Version(0, 0, 0), 65536, Fetch(0, 0, []))
    ensures decode(Concat([])).value.url == "/image" && decode(Concat([])).value.size == 0
  {
    hide ParseSpec, NewerOffered, Concat;
    var text := SomeVersionText();
    OfferingIsNewer(text);
    decode := Offering(text);
  }

  lemma SomeVersionText() returns (text: string)
    ensures ParseSpec(text, 65536) == Some(Version(1, 0, 0))
  {
    hide ParseSpec, Print;
    text := Print(Version(1, 0, 0)) + "";
    ParseInvertsPrint(Version(1, 0, 0), "", 65536);
  }

  lemma OfferingIsNewer(text: string)
    requires ParseSpec(text, 65536) == Some(Version(1, 0, 0))
    ensures NewerOffered(Offering(text), Version(0, 0, 0), 65536, Fetch(0, 0, []))
  {
    hide ParseSpec;
  }

  function Offering(version: string): Decoder {
    (_: seq<Byte>) => Some(Manifest(Some(version), "/image", 0))
  }

  // A failed check, as opposed to one that finds nothing newer, is an error for the caller
  // and yet leads back to IDLE.
  lemma {:induction false} FailedCheckIsIdle(decode: Decoder, current: Version, ulongMax: nat, c: Cycle)
    requires current.Valid()
    ensures var (trace, ret) := CycleSpec(decode, current, ulongMax, c);
      trace == [Checking, OtaState.Idle] && ret < 0 <==> !Readable(decode, ulongMax, c.fetch)
  {
    hide ParseSpec, Collect, DownloadRet, Concat, Compare;
    ManifestCollected(c.fetch.frags);
    CycleStates(decode, current, ulongMax, c);
  }

  // ---------------------------------------------------------------- what a cycle returns

  // The result is the first negative code, or 0 when there is none.
  ghost predicate FirstFailure(codes: seq<int>, ret: int) {
    || (ret == 0 && forall k :: 0 <= k < |codes| ==> codes[k] >= 0)
    || exists k :: FailsAt(codes, k, ret)
  }

  ghost predicate FailsAt(codes: seq<int>, k: nat, ret: int) {
    k < |codes| && codes[k] == ret < 0 && forall j :: 0 <= j < k ==> codes[j] >= 0
  }

  // What each operation of a check comes to, in the order they are done: connecting, the
  // request, room for the body (105 is ENOBUFS), decoding it (71, EPROTO), and reading its
  // version (22, EINVAL).
  function CheckCodes(decode: Decoder, ulongMax: nat, f: Fetch): seq<int> {
    var body := Concat(f.frags);
    var decoded := decode(body);
    [f.connectRet, f.httpRet,
     if |body| > 511 then -105 else 0,
     if decoded.None? then -71 else 0,
     if decoded.Some? && (decoded.value.version.None? || ParseSpec(decoded.value.version.value, ulongMax).None?)
     then -22 else 0]
  }

  // The same for an installation: the url (71), opening, erasing and preparing the flash,
  // connecting, the request, writing (5, EIO), the size (122, EMSGSIZE), confirming the
  // running image, and requesting the upgrade.
  ghost function InstallCodes(manifest: Manifest, c: Cycle): seq<int> {
    var d := c.download;
    [if manifest.url == "" || manifest.url[0] != '/' then -71 else 0,
     d.openRet, d.eraseRet, d.initRet, d.connectRet, d.httpRet,
     if NoFlashError(d.calls) then 0 else -5,
     if manifest.size > 0 && |Concat(Bodies(d.calls))| != manifest.size then -122 else 0,
     if c.confirmed then 0 else c.confirmRet,
     c.upgradeRet]
  }

  // For every cycle: a failed check returns the code of its first failing operation, a check
  // that finds nothing newer returns 0, and an installation returns the code of its first
  // failing operation or 0. So the result is negative exactly when the cycle ends in ERROR
  // or the check failed.
  lemma {:induction false} CycleReturns(decode: Decoder, current: Version, ulongMax: nat, c: Cycle)
    requires current.Valid()
    ensures var (trace, ret) := CycleSpec(decode, current, ulongMax, c);
      && |trace| > 0
      && (ret < 0 <==> trace[|trace| - 1] == Error || !Readable(decode, ulongMax, c.fetch))
      && ret <= 0
      && (!Readable(decode, ulongMax, c.fetch) ==> FirstFailure(CheckCodes(decode, ulongMax, c.fetch), ret))
      && (NewerOffered(decode, current, ulongMax, c.fetch) ==>
            FirstFailure(InstallCodes(decode(Concat(c.fetch.frags)).value, c), ret))
  {
    hide FirstFailure, CycleSpec, CheckCodes, InstallCodes, Readable;
    CycleStates(decode, current, ulongMax, c);
    FailedCheckIsIdle(decode, current, ulongMax, c);
    if !NewerOffered(decode, current, ulongMax, c.fetch) {
      CheckReturns(decode, current, ulongMax, c);
    } else {
      InstallReturns(decode, current, ulongMax, c);
    }
  }

  lemma {:induction false} CheckReturns(decode: Decoder, current: Version, ulongMax: nat, c: Cycle)
    requires current.Valid() && !NewerOffered(decode, current, ulongMax, c.fetch)
    ensures var ret := CycleSpec(decode, current, ulongMax, c).1;
      if Readable(decode, ulongMax, c.fetch) then ret == 0
      else ret < 0 && FirstFailure(CheckCodes(decode, ulongMax, c.fetch), ret)
  {
    hide ParseSpec, Collect, InstallSpec, Concat, Compare;
    ManifestCollected(c.fetch.frags);
    var codes, ret := CheckCodes(decode, ulongMax, c.fetch), CycleSpec(decode, current, ulongMax, c).1;
    if Readable(decode, ulongMax, c.fetch) {
      var remote := ParseSpec(decode(Concat(c.fetch.frags)).value.version.value, ulongMax);
      ParsedIsValid(decode(Concat(c.fetch.frags)).value.version.value, ulongMax);
      CompareIsRankOrder(remote.value, current);
    } else {
      var k := if codes[0] < 0 then 0 else if codes[1] < 0 then 1 else if codes[2] < 0 then 2
        else if codes[3] < 0 then 3 else 4;
      assert FailsAt(codes, k, ret);
    }
  }

  lemma {:induction false} InstallReturns(decode: Decoder, current: Version, ulongMax: nat, c: Cycle)
    requires current.Valid() && NewerOffered(decode, current, ulongMax, c.fetch)
    ensures var (trace, ret) := CycleSpec(decode, current, ulongMax, c);
      && |trace| > 0 && (ret < 0 <==> trace[|trace| - 1] == Error) && ret <= 0
      && FirstFailure(InstallCodes(decode(Concat(c.fetch.frags)).value, c), ret)
  {
    hide ParseSpec, Collect, WriteAll, Concat, NoFlashError, Compare, InstallSpec;
    ManifestCollected(c.fetch.frags);
    var manifest := decode(Concat(c.fetch.frags)).value;
    ParsedIsValid(manifest.version.value, ulongMax);
    CompareIsRankOrder(ParseSpec(manifest.version.value, ulongMax).value, current);
    var rest := InstallSpec(c, Truncate(manifest.url, URL_LEN), manifest.size);
    assert CycleSpec(decode, current, ulongMax, c) == ([Checking] + rest.0, rest.1);
    InstallFails(manifest, c);
  }

  lemma {:induction false} InstallFails(manifest: Manifest, c: Cycle)
    ensures var (trace, ret) := InstallSpec(c, Truncate(manifest.url, URL_LEN), manifest.size);
      && |trace| > 0 && (ret < 0 <==> trace[|trace| - 1] == Error) && ret <= 0
      && FirstFailure(InstallCodes(manifest, c), ret)
  {
    hide WriteAll, Concat, NoFlashError;
    FirmwareWritten(c.download.calls);
    var codes, ret := InstallCodes(manifest, c), InstallSpec(c, Truncate(manifest.url, URL_LEN), manifest.size).1;
    if ret < 0 {
      var k := if codes[0] < 0 then 0 else if codes[1] < 0 then 1 else if codes[2] < 0 then 2
        else if codes[3] < 0 then 3 else if codes[4] < 0 then 4 else if codes[5] < 0 then 5
        else if codes[6] < 0 then 6 else if codes[7] < 0 then 7 else if codes[8] < 0 then 8 else 9;
      assert FailsAt(codes, k, ret);
    }
  }

  // A cycle asks for an image only when a newer version is offered, and then for the path
  // the manifest gives, whole up to 127 characters.
  lemma {:induction false} AsksForOfferedImage(decode: Decoder, current: Version, ulongMax: nat, c: Cycle)
    requires current.Valid()
    ensures var asked := AskedInCycle(decode, current, ulongMax, c);
      && |asked| <= 1
      && (asked != [] ==> NewerOffered(decode, current, ulongMax, c.fetch))
      && (asked != [] ==>
            var url := decode(Concat(c.fetch.frags)).value.url;
            asked[0] <= url && |asked[0]| == (if |url| <= 127 then |url| else 127))
      && (MayReboot(decode, current, ulongMax, c) ==> asked != [])
  {
    hide ParseSpec, Collect, Concat, NoFlashError, Compare;
    ManifestCollected(c.fetch.frags);
    if Readable(decode, ulongMax, c.fetch) {
      var text := decode(Concat(c.fetch.frags)).value.version.value;
      ParsedIsValid(text, ulongMax);
      CompareIsRankOrder(ParseSpec(text, ulongMax).value, current);
    }
  }

  // ---------------------------------------------------------------- the state graph

  // The intended graph (REQ-OTA-001), as the code draws it: a failed check returns to
  // IDLE, the later states fail into ERROR, and a new check starts from IDLE or ERROR.
  predicate Edge(a: OtaState, b: OtaState) {
    match a
    case Idle => b == Checking
    case Checking => b == Idle || b == Downloading
    case Downloading => b == Validating || b == Error
    case Validating => b == Marking || b == Error
    case Marking => b == Rebooting || b == Error
    case Rebooting => false
    case Error => b == Checking
  }

  ghost predicate FollowsGraph(trace: seq<OtaState>) {
    |trace| > 0 && trace[0] == Idle && forall k :: 0 <= k < |trace| - 1 ==> Edge(trace[k], trace[k + 1])
  }

  // The thread's states over a sequence of cycles, from start-up; nothing follows a reboot.
  function ThreadTrace(decode: Decoder, current: Version, ulongMax: nat, cycles: seq<Cycle>): (r: seq<OtaState>)
    ensures |r| > 0
  {
    if |cycles| == 0 then [Idle]
    else
      var before := ThreadTrace(decode, current, ulongMax, cycles[..|cycles| - 1]);
      if before[|before| - 1] == Rebooting then before
      else before + CycleSpec(decode, current, ulongMax, cycles[|cycles| - 1]).0
  }

  lemma CycleEdges(decode: Decoder, current: Version, ulongMax: nat, c: Cycle)
    ensures var t := CycleSpec(decode, current, ulongMax, c).0;
      && |t| > 0 && t[0] == Checking
      && (forall k :: 0 <= k < |t| - 1 ==> Edge(t[k], t[k + 1]))
      && t[|t| - 1] in {Idle, Error, Rebooting}
  {
    hide FetchRet, DownloadRet, ParseSpec, Compare, Collect;
  }

  // On every run of the thread the state trace follows the graph, comes to rest in IDLE,
  // ERROR or REBOOTING between cycles, and shows a reboot only if a cycle earned it.
  lemma {:induction false} ThreadFollowsGraph(decode: Decoder, current: Version, ulongMax: nat, cycles: seq<Cycle>)
    requires current.Valid()
    ensures var t := ThreadTrace(decode, current, ulongMax, cycles);
      && FollowsGraph(t)
      && t[|t| - 1] in {Idle, Error, Rebooting}
      && (t[|t| - 1] == Rebooting <==>
            exists k :: 0 <= k < |cycles| && MayReboot(decode, current, ulongMax, cycles[k]))
  {
    hide CycleSpec, MayReboot, FollowsGraph;
    if |cycles| == 0 {
      StartsIdle();
    } else {
      var n := |cycles| - 1;
      var before, c := ThreadTrace(decode, current, ulongMax, cycles[..n]), cycles[n];
      ThreadFollowsGraph(decode, current, ulongMax, cycles[..n]);
      EarnedStep(decode, current, ulongMax, cycles);
      if before[|before| - 1] != Rebooting {
        CycleEdges(decode, current, ulongMax, c);
        RebootExactlyWhenGuarded(decode, current, ulongMax, c);
        Appended(before, CycleSpec(decode, current, ulongMax, c).0);
      }
    }
  }

  lemma StartsIdle()
    ensures FollowsGraph([OtaState.Idle])
  {
  }

  lemma Appended(before: seq<OtaState>, t: seq<OtaState>)
    requires FollowsGraph(before) && before[|before| - 1] in {Idle, Error}
    requires |t| > 0 && t[0] == Checking && forall k :: 0 <= k < |t| - 1 ==> Edge(t[k], t[k + 1])
    ensures FollowsGraph(before + t)
  {
    var whole := before + t;
    forall k | 0 <= k < |whole| - 1
      ensures Edge(whole[k], whole[k + 1])
    {
      if k >= |before| {
        assert Edge(t[k - |before|], t[k - |before| + 1]);
      }
    }
  }

  lemma EarnedStep(decode: Decoder, current: Version, ulongMax: nat, cycles: seq<Cycle>)
    requires |cycles| > 0
    ensures var n := |cycles| - 1;
      (exists k :: 0 <= k < |cycles| && MayReboot(decode, current, ulongMax, cycles[k])) <==>
        ((exists k :: 0 <= k < n && MayReboot(decode, current, ulongMax, cycles[..n][k])) ||
         MayReboot(decode, current, ulongMax, cycles[n]))
  {
    hide MayReboot;
    var n := |cycles| - 1;
    assert forall k :: 0 <= k < n ==> cycles[..n][k] == cycles[k];
    if k :| 0 <= k < |cycles| && MayReboot(decode, current, ulongMax, cycles[k]) {
      assert k < n ==> MayReboot(decode, current, ulongMax, cycles[..n][k]);
    }
  }

  // ---------------------------------------------------------------- backing off

  // How many of the latest cycles failed in a row.
  function Failures(rets: seq<int>): nat {
    if |rets| == 0 || rets[|rets| - 1] >= 0 then 0 else 1 + Failures(rets[..|rets| - 1])
  }

  // The extra sleep after a cycle, in seconds.
  function Backoff(rets: seq<int>, interval: nat): nat {
    if Failures(rets) * interval > MAX_BACKOFF then MAX_BACKOFF else Failures(rets) * interval
  }

  // The extra sleeps over a whole run of the thread.
  function Sleeps(rets: seq<int>, interval: nat): seq<nat> {
    if |rets| == 0 then [] else Sleeps(rets[..|rets| - 1], interval) + [Backoff(rets, interval)]
  }

  // After a cycle that is the n-th failure in a row the thread sleeps n intervals, at most
  // an hour; after a success not at all. Counted on the results of the run.
  lemma {:induction false} SleepsAfterFailures(rets: seq<int>, interval: nat, k: nat, n: nat)
    requires k < |rets| && n <= k + 1
    requires forall j :: k - n < j <= k ==> rets[j] < 0
    requires n == k + 1 || rets[k - n] >= 0
    ensures |Sleeps(rets, interval)| == |rets|
    ensures Sleeps(rets, interval)[k] == if n * interval <= 3600 then n * interval else 3600
  {
    if k < |rets| - 1 {
      SleepsAfterFailures(rets[..|rets| - 1], interval, k, n);
    } else {
      FailuresInARow(rets, n);
      SleepsLength(rets[..k], interval);
    }
  }

  lemma {:induction false} SleepsLength(rets: seq<int>, interval: nat)
    ensures |Sleeps(rets, interval)| == |rets|
  {
    if |rets| > 0 {
      SleepsLength(rets[..|rets| - 1], interval);
    }
  }

  lemma {:induction false} FailuresInARow(rets: seq<int>, n: nat)
    requires n <= |rets| && forall j :: |rets| - n <= j < |rets| ==> rets[j] < 0
    requires n == |rets| || rets[|rets| - n - 1] >= 0
    ensures Failures(rets) == n
  {
    if n > 0 {
      FailuresInARow(rets[..|rets| - 1], n - 1);
    }
  }

  lemma NothingYet(decode: Decoder, current: Version, ulongMax: nat, interval: nat)
    ensures ThreadTrace(decode, current, ulongMax, []) == [OtaState.Idle]
    ensures Sleeps([], interval) == [] && Failures([]) == 0
  {
  }

  lemma OneMoreCycle(decode: Decoder, current: Version, ulongMax: nat, cycles: seq<Cycle>, i: nat)
    requires i < |cycles|
    ensures var before := ThreadTrace(decode, current, ulongMax, cycles[..i]);
      ThreadTrace(decode, current, ulongMax, cycles[..i + 1]) ==
        if before[|before| - 1] == Rebooting then before
        else before + CycleSpec(decode, current, ulongMax, cycles[i]).0
  {
    hide CycleSpec;
    assert cycles[..i + 1][..i] == cycles[..i];
  }

  lemma OneMoreSleep(rets: seq<int>, ret: int, interval: nat)
    ensures Failures(rets + [ret]) == if ret < 0 then Failures(rets) + 1 else 0
    ensures Sleeps(rets + [ret], interval) == Sleeps(rets, interval) + [Backoff(rets + [ret], interval)]
  {
    assert (rets + [ret])[..|rets|] == rets;
  }

  // ---------------------------------------------------------------- the client

  class Client {
    const manifestBuf: array<Byte>
    var manifestLen: nat
    var manifestTruncated: bool
    var firmwareDownloaded: nat
    var streamActive: bool
    var state: OtaState
    // What reached the secondary slot, the states passed through, and the paths asked for.
    ghost var flash: seq<Byte>
    ghost var flushed: bool
    ghost var trace: seq<OtaState>
    ghost var requested: seq<string>

    ghost predicate Valid()
      reads this
    {
      && manifestBuf.Length == MANIFEST_SIZE && manifestLen < MANIFEST_SIZE
      && firmwareDownloaded == |flash|
      && |trace| > 0 && trace[|trace| - 1] == state
    }

    ghost function Manifest_(): Collected
      reads this, manifestBuf
      requires Valid()
    {
      Collected(manifestBuf[..manifestLen], manifestTruncated)
    }

    ghost function Slot(): Flash
      reads this
    {
      Flash(streamActive, flash, flushed)
    }

    constructor ()
      ensures Valid() && fresh(manifestBuf) && trace == [Idle]
    {
      manifestBuf := new Byte[MANIFEST_SIZE](_ => 0);
      manifestLen, manifestTruncated := 0, false;
      firmwareDownloaded, streamActive := 0, false;
      state := Idle;
      flash, flushed, trace, requested := [], false, [Idle], [];
    }

    // ceell_ota_set_state
    method SetState(s: OtaState)
      modifies this`state, this`trace
      ensures state == s && trace == old(trace) + [s]
    {
      state := s;
      trace := trace + [s];
    }

    // manifest_cb
    method ManifestCallback(frag: seq<Byte>)
      requires Valid()
      modifies this`manifestLen, this`manifestTruncated, manifestBuf
      ensures Valid() && Manifest_() == CollectOne(old(Manifest_()), frag)
    {
      if |frag| > 0 && !manifestTruncated {
        var available := MANIFEST_SIZE - 1 - manifestLen;
        if |frag| > available {
          manifestTruncated := true;
          return;
        }
        ghost var before := manifestBuf[..manifestLen];
        forall k | 0 <= k < |frag| {
          manifestBuf[manifestLen + k] := frag[k];
        }
        manifestLen := manifestLen + |frag|;
        assert manifestBuf[..manifestLen] == before + frag;
      }
    }

    // fetch_manifest
    method FetchManifest(decode: Decoder, f: Fetch) returns (ret: int, manifest: Option<Manifest>)
      requires Valid()
      modifies this`manifestLen, this`manifestTruncated, manifestBuf
      ensures Valid() && ret == FetchRet(decode, f)
      ensures ret >= 0 ==> manifest == decode(Collect(f.frags).text) && manifest.Some?
    {
      manifest := None;
      if f.connectRet < 0 {
        return f.connectRet, None;
      }
      manifestLen := 0;
      manifestTruncated := false;
      assert Manifest_() == Collect(f.frags[..0]);
      for i := 0 to |f.frags|
        invariant Valid() && Manifest_() == Collect(f.frags[..i])
      {
        ManifestCallback(f.frags[i]);
        assert f.frags[..i + 1][..i] == f.frags[..i];
      }
      assert f.frags[..|f.frags|] == f.frags;
      if f.httpRet < 0 {
        return f.httpRet, None;
      }
      if manifestTruncated {
        return -ENOBUFS, None;
      }
      ghost var text := manifestBuf[..manifestLen];
      manifestBuf[manifestLen] := 0;
      assert manifestBuf[..manifestLen] == text;
      manifest := decode(manifestBuf[..manifestLen]);
      if manifest.None? {
        return -EPROTO, None;
      }
      return 0, manifest;
    }

    // firmware_cb
    method FirmwareCallback(c: Call)
      requires Valid()
      modifies this`firmwareDownloaded, this`streamActive, this`flash, this`flushed
      ensures Valid() && Slot() == WriteCall(old(Slot()), c)
    {
      if |c.frag| > 0 && streamActive {
        if !c.writeOk {
          streamActive := false;
          return;
        }
        flash := flash + c.frag;
        firmwareDownloaded := firmwareDownloaded + |c.frag|;
      }
      if c.final && streamActive {
        if c.flushOk {
          flushed := true;
        } else {
          streamActive := false;
        }
      }
    }

    // download_firmware
    method DownloadFirmware(d: Download, url: string, size: int) returns (ret: int)
      requires Valid()
      modifies this`firmwareDownloaded, this`streamActive, this`flash, this`flushed, this`requested
      ensures Valid() && ret == DownloadRet(d, url, size)
      ensures requested == old(requested) + Asked(d, url)
      ensures ret >= 0 ==> Slot() == WriteAll(d.calls)
    {
      if url == "" || url[0] != '/' {
        return -EPROTO;
      }
      if d.openRet < 0 {
        return d.openRet;
      }
      if d.eraseRet < 0 {
        return d.eraseRet;
      }
      if d.initRet < 0 {
        return d.initRet;
      }
      streamActive := true;
      firmwareDownloaded := 0;
      flash, flushed := [], false;
      if d.connectRet < 0 {
        return d.connectRet;
      }
      requested := requested + [url];
      for i := 0 to |d.calls|
        invariant Valid() && requested == old(requested) + [url] && Slot() == WriteAll(d.calls[..i])
      {
        FirmwareCallback(d.calls[i]);
        assert d.calls[..i + 1][..i] == d.calls[..i];
      }
      assert d.calls[..|d.calls|] == d.calls;
      // A failed request is followed by a flush whose outcome nobody looks at.
      if d.httpRet < 0 || !streamActive {
        return if d.httpRet < 0 then d.httpRet else -EIO;
      }
      if size > 0 && firmwareDownloaded != size {
        return -EMSGSIZE;
      }
      return 0;
    }

    // ota_check_and_update
    method CheckAndUpdate(decode: Decoder, current: Version, ulongMax: nat, c: Cycle) returns (ret: int)
      requires Valid()
      modifies this, manifestBuf
      ensures Valid()
      ensures ret == CycleSpec(decode, current, ulongMax, c).1
      ensures trace == old(trace) + CycleSpec(decode, current, ulongMax, c).0
      ensures requested == old(requested) + AskedInCycle(decode, current, ulongMax, c)
      ensures state == Rebooting ==> Slot() == WriteAll(c.download.calls)
    {
      hide FetchRet, InstallSpec, ParseSpec, Compare, Collect, WriteAll;
      SetState(Checking);
      var manifest: Option<Manifest>;
      ret, manifest := FetchManifest(decode, c.fetch);
      if ret < 0 {
        SetState(Idle);
        return;
      }
      var remote := Parse(manifest.value.version, ulongMax);
      if remote.None? {
        SetState(Idle);
        return -EINVAL;
      }
      if Compare(remote.value, current) <= 0 {
        SetState(Idle);
        return 0;
      }
      ret := Install(c, Truncate(manifest.value.url, URL_LEN), manifest.value.size);
    }

    // Its part from the download on.
    method Install(c: Cycle, url: string, size: int) returns (ret: int)
      requires Valid()
      modifies this
      ensures Valid() && ret == InstallSpec(c, url, size).1
      ensures trace == old(trace) + InstallSpec(c, url, size).0
      ensures requested == old(requested) + Asked(c.download, url)
      ensures state == Rebooting ==> Slot() == WriteAll(c.download.calls)
    {
      hide DownloadRet, WriteAll;
      SetState(Downloading);
      ret := DownloadFirmware(c.download, url, size);
      if ret < 0 {
        SetState(Error);
        return;
      }
      SetState(Validating);
      if !c.confirmed {
        if c.confirmRet < 0 {
          SetState(Error);
          return c.confirmRet;
        }
      }
      SetState(Marking);
      if c.upgradeRet < 0 {
        SetState(Error);
        return c.upgradeRet;
      }
      SetState(Rebooting);
      return 0;
    }

    // The loop of ota_thread_entry over the cycles that take place before a reboot, with
    // the sleeps it adds after failures.
    method Thread(decode: Decoder, current: Version, ulongMax: nat, cycles: seq<Cycle>, interval: nat)
      returns (rets: seq<int>, sleeps: seq<nat>)
      requires Valid() && trace == [Idle]
      modifies this, manifestBuf
      ensures Valid() && |rets| <= |cycles|
      ensures trace == ThreadTrace(decode, current, ulongMax, cycles[..|rets|])
      ensures |rets| < |cycles| ==> state == Rebooting
      ensures sleeps == Sleeps(rets, interval)
      ensures forall k :: 0 <= k < |rets| ==> rets[k] == CycleSpec(decode, current, ulongMax, cycles[k]).1
    {
      hide CycleSpec, ThreadTrace, Sleeps, Failures, Collect, WriteAll, AskedInCycle, FetchRet;
      NothingYet(decode, current, ulongMax, interval);
      rets, sleeps := [], [];
      var failCount := 0;
      while |rets| < |cycles| && state != Rebooting
        invariant Valid() && |rets| <= |cycles|
        invariant trace == ThreadTrace(decode, current, ulongMax, cycles[..|rets|])
        invariant failCount == Failures(rets) && sleeps == Sleeps(rets, interval)
        invariant forall k :: 0 <= k < |rets| ==> rets[k] == CycleSpec(decode, current, ulongMax, cycles[k]).1
        decreases |cycles| - |rets|
      {
        var ret := CheckAndUpdate(decode, current, ulongMax, cycles[|rets|]);
        OneMoreCycle(decode, current, ulongMax, cycles, |rets|);
        OneMoreSleep(rets, ret, interval);
        rets := rets + [ret];
        if ret < 0 {
          failCount := failCount + 1;
          var backoff := failCount * interval;
          if backoff > MAX_BACKOFF {
            backoff := MAX_BACKOFF;
          }
          sleeps := sleeps + [backoff];
        } else {
          failCount := 0;
          sleeps := sleeps + [0];
        }
      }
    }
  }
}
