/** The decision part of `TelegramMessageController.message`: the early-return guard chain
    (authorization, attachment presence, size ceiling, extension allow-list), the destination
    path of an accepted file and the `getTimeStamp` text, over an abstracted configuration,
    message and clock reading. */
module TelegramMessageController {
  import opened Defaults
  import opened Strings

  /** The environment variables the handler reads; `None` is an unset variable. */
  datatype Config = Config(
    allowedExtensions: Option<string>,  // ALLOWED_EXTENSIONS, comma-separated
    username: Option<string>,           // YOUR_USERNAME
    savePath: Option<string>)           // SAVE_PATH

  /** The fields of a Telegram document, audio, video, voice or photo-size object that are read. */
  datatype FileInfo = FileInfo(fileId: Option<string>, fileName: Option<string>, fileSize: Option<nat>)

  /** The fields of an incoming Telegram message that are read. */
  datatype Message = Message(
    fromUsername: Option<string>,
    document: Option<FileInfo>,
    audio: Option<FileInfo>,
    video: Option<FileInfo>,
    voice: Option<FileInfo>,
    photo: Option<seq<FileInfo>>)

  /** One reading of the local clock, as `Date` reports it: the month is counted from 0. */
  datatype Clock = Clock(year: nat, monthIndex: nat, day: nat, hours: nat, minutes: nat, seconds: nat)

  /** Where the handler leaves the message: one of the four replies that stop it, or an accepted
      file with the path it will be written to. */
  datatype Outcome =
    | Unauthorized
    | NoFile
    | TooBig
    | ExtensionNotAllowed(extension: string, allowed: seq<string>)
    | Accepted(fileId: string, fileName: string, extension: string, path: string)

  /** 50 MB, in bytes. */
  const MaxFileSize: nat := 50 * 1024 * 1024

  const DefaultSavePath: string := "./files"

  // ---------------------------------------------------------------------------
  // Configuration and sender
  // ---------------------------------------------------------------------------

  /** `ALLOWED_EXTENSIONS.split(",")`, the variable defaulting to `""`: the list is exactly the
      configured text cut at its commas; an unset or empty variable gives `[""]`. */
  function AllowedExtensions(cfg: Config): (list: seq<string>)
    ensures |list| >= 1
    ensures forall i :: 0 <= i < |list| ==> ',' !in list[i]
    ensures JoinWith(list, ",") == GetOr(cfg.allowedExtensions, "")
  {
    var raw := GetOr(cfg.allowedExtensions, "");
    JoinWithSplit(raw, ',');
    Split(raw, ',')
  }

  function AllowedUsername(cfg: Config): string { GetOr(cfg.username, "") }

  function SenderUsername(msg: Message): string { GetOr(msg.fromUsername, "") }

  /** The sender's username, `""` when missing, equals the configured one, `""` when unset. */
  predicate IsAuthorized(cfg: Config, msg: Message)
  {
    SenderUsername(msg) == AllowedUsername(cfg)
  }

  // ---------------------------------------------------------------------------
  // Attachment selection
  // ---------------------------------------------------------------------------

  /** `message.photo ? message.photo[message.photo.length - 1] : null`: the last (largest) size;
      an empty array yields `undefined`. */
  function LastPhoto(photo: Option<seq<FileInfo>>): Option<FileInfo>
  {
    match photo
    case None => None
    case Some(sizes) => if |sizes| == 0 then None else Some(sizes[|sizes| - 1])
  }

  /** The attachments in the order the handler tries them. */
  function Candidates(msg: Message): seq<Option<FileInfo>>
  {
    [msg.document, msg.audio, msg.video, msg.voice, LastPhoto(msg.photo)]
  }

  /** The first present entry of a list of optional attachments. */
  function FirstPresent(options: seq<Option<FileInfo>>): (r: Option<FileInfo>)
    ensures r.None? <==> forall i :: 0 <= i < |options| ==> options[i].None?
    ensures r.Some? ==>
      exists i :: 0 <= i < |options| && options[i] == r && (forall j :: 0 <= j < i ==> options[j].None?)
  {
    if options == [] then None
    else if options[0].Some? then options[0]
    else
      var r := FirstPresent(options[1..]);
      assert forall i :: 1 <= i < |options| ==> options[i] == options[1..][i - 1];
      r
  }

  /** Unfolds `FirstPresent` over the five candidates of a message. */
  lemma CandidatesInOrder(msg: Message)
    ensures FirstPresent(Candidates(msg))
      == if msg.document.Some? then msg.document
         else if msg.audio.Some? then msg.audio
         else if msg.video.Some? then msg.video
         else if msg.voice.Some? then msg.voice
         else LastPhoto(msg.photo)
  {
    var c := Candidates(msg);
    assert c[1..] == [msg.audio, msg.video, msg.voice, LastPhoto(msg.photo)];
    assert c[1..][1..] == [msg.video, msg.voice, LastPhoto(msg.photo)];
    assert c[1..][1..][1..] == [msg.voice, LastPhoto(msg.photo)];
    assert c[1..][1..][1..][1..] == [LastPhoto(msg.photo)];
    assert FirstPresent(c) == if msg.document.Some? then msg.document else FirstPresent(c[1..]);
    assert FirstPresent(c[1..]) == if msg.audio.Some? then msg.audio else FirstPresent(c[1..][1..]);
    assert FirstPresent(c[1..][1..]) == if msg.video.Some? then msg.video else FirstPresent(c[1..][1..][1..]);
    assert FirstPresent(c[1..][1..][1..]) == if msg.voice.Some? then msg.voice else FirstPresent(c[1..][1..][1..][1..]);
  }

  /** The `document || audio || video || voice || last photo` chain: the first present
      candidate, in that order. */
  function SelectFile(msg: Message): (file: Option<FileInfo>)
    ensures file == FirstPresent(Candidates(msg))
  {
    CandidatesInOrder(msg);
    if msg.document.Some? then msg.document
    else if msg.audio.Some? then msg.audio
    else if msg.video.Some? then msg.video
    else if msg.voice.Some? then msg.voice
    else LastPhoto(msg.photo)
  }

  // ---------------------------------------------------------------------------
  // Size, identity, name and extension of the chosen attachment
  // ---------------------------------------------------------------------------

  /** `get(file, "file_size", 0)`. */
  function FileSize(file: FileInfo): nat { GetOr(file.fileSize, 0) }

  /** `get(file, "file_id", "")`. */
  function FileId(file: FileInfo): string { GetOr(file.fileId, "") }

  /** `get(file, "file_name", "file_" + fileId)`: a declared name, even an empty one, is used as
      it is; only a missing one is replaced. */
  function FileName(file: FileInfo): string { GetOr(file.fileName, "file_" + FileId(file)) }

  /** `fileName.includes('.') ? fileName.split('.').pop()?.toLowerCase() || '' : ''`. The
      extension is the lower-cased text after the last dot, `""` without a dot; it never holds a
      dot or an upper-case ASCII letter. */
  function FileExtension(name: string): (ext: string)
    ensures '.' !in ext
    ensures forall i :: 0 <= i < |ext| ==> !IsAsciiUpper(ext[i])
    ensures '.' !in name ==> ext == ""
    ensures '.' in name ==> ext == ToLower(TextAfterLast(name, '.'))
  {
    if '.' in name then
      var pieces := Split(name, '.');
      LastPieceOfSplit(name, '.');
      ToLowerAvoids(pieces[|pieces| - 1], '.');
      // `|| ''` maps an empty lower-cased piece to '' again
      ToLower(pieces[|pieces| - 1])
    else ""
  }

  // ---------------------------------------------------------------------------
  // Timestamp and destination path
  // ---------------------------------------------------------------------------

  /** The six fields `getTimeStamp` prints, the month counted from 1. */
  function TimeStampFields(now: Clock): seq<string>
  {
    [Decimal(now.year), Decimal(now.monthIndex + 1), Decimal(now.day),
     Decimal(now.hours), Decimal(now.minutes), Decimal(now.seconds)]
  }

  /** `getTimeStamp`: year, month, day, hours, minutes, seconds in decimal without padding,
      joined by `-`. It consists of digits and dashes only, and cutting it at its dashes gives
      back the six fields. */
  function TimeStamp(now: Clock): (ts: string)
    ensures DigitsAndDashesOnly(ts)
    ensures Split(ts, '-') == TimeStampFields(now)
  {
    var fields := TimeStampFields(now);
    SplitJoinWith(fields, '-');
    DigitsAndDashes(fields);
    JoinWith(fields, "-")
  }

  predicate DigitsAndDashesOnly(s: string)
  {
    forall i :: 0 <= i < |s| ==> IsDigit(s[i]) || s[i] == '-'
  }

  lemma {:induction false} DigitsAndDashes(fields: seq<string>)
    requires forall k :: 0 <= k < |fields| ==> AllDigits(fields[k])
    ensures DigitsAndDashesOnly(JoinWith(fields, "-"))
    decreases |fields|
  {
    if |fields| == 1 {
      assert AllDigits(fields[0]);
    } else if |fields| > 1 {
      DigitsAndDashes(fields[1..]);
      var rest := JoinWith(fields[1..], "-");
      var s := fields[0] + "-" + rest;
      assert JoinWith(fields, "-") == s;
      assert AllDigits(fields[0]);
      forall i | 0 <= i < |s| ensures IsDigit(s[i]) || s[i] == '-' {
        if i < |fields[0]| {
          assert s[i] == fields[0][i];
        } else if i > |fields[0]| {
          var k := i - |fields[0]| - 1;
          assert s[i] == rest[k];
          assert IsDigit(rest[k]) || rest[k] == '-';
        }
      }
    }
  }

  /** No field is padded: 5 January 2024, 07:03:09 is written `2024-1-5-7-3-9`. */
  lemma TimeStampUnpadded()
    ensures TimeStampFields(Clock(2024, 0, 5, 7, 3, 9)) == ["2024", "1", "5", "7", "3", "9"]
  {
    assert Decimal(20) == Decimal(2) + "0" == "20";
    assert Decimal(202) == Decimal(20) + "2" == "202";
    assert Decimal(2024) == Decimal(202) + "4" == "2024";
  }

  /** Reads a timestamp back: six canonical decimal fields separated by `-`, month at least 1. */
  function ParseTimeStamp(ts: string): Option<Clock>
  {
    var f := Split(ts, '-');
    if |f| == 6 && (forall k :: 0 <= k < 6 ==> IsCanonicalDecimal(f[k])) && ParseDecimal(f[1]) >= 1
    then Some(Clock(ParseDecimal(f[0]), ParseDecimal(f[1]) - 1, ParseDecimal(f[2]),
                    ParseDecimal(f[3]), ParseDecimal(f[4]), ParseDecimal(f[5])))
    else None
  }

  /** Every clock reading is recovered from its timestamp, so distinct readings never share one
      even though no field is padded. */
  lemma TimeStampRoundTrip(now: Clock)
    ensures ParseTimeStamp(TimeStamp(now)) == Some(now)
  {
    var f := Split(TimeStamp(now), '-');
    assert f == TimeStampFields(now);
    assert forall k :: 0 <= k < 6 ==> IsCanonicalDecimal(f[k]);
    ParseDecimalOfDecimal(now.year);
    ParseDecimalOfDecimal(now.monthIndex + 1);
    ParseDecimalOfDecimal(now.day);
    ParseDecimalOfDecimal(now.hours);
    ParseDecimalOfDecimal(now.minutes);
    ParseDecimalOfDecimal(now.seconds);
  }

  /** Conversely, a text that parses as a timestamp is exactly the timestamp of what it parses to. */
  lemma TimeStampOfParse(ts: string)
    requires ParseTimeStamp(ts).Some?
    ensures TimeStamp(ParseTimeStamp(ts).value) == ts
  {
    var f := Split(ts, '-');
    forall k | 0 <= k < 6 ensures Decimal(ParseDecimal(f[k])) == f[k] {
      DecimalOfParseDecimal(f[k]);
    }
    var now := ParseTimeStamp(ts).value;
    assert TimeStampFields(now) == f;
    JoinWithSplit(ts, '-');
  }

  lemma TimeStampInjective(a: Clock, b: Clock)
    requires TimeStamp(a) == TimeStamp(b)
    ensures a == b
  {
    TimeStampRoundTrip(a);
    TimeStampRoundTrip(b);
  }

  /** `SAVE_PATH` (default `./files`), a slash, the timestamp, `_` and the file name as received. */
  function TargetPath(cfg: Config, now: Clock, fileName: string): string
  {
    GetOr(cfg.savePath, DefaultSavePath) + "/" + TimeStamp(now) + "_" + fileName
  }

  /** The destination path can be read back: below the save directory, the text up to the first
      `_` is the timestamp of the clock reading and the rest is the file name, unchanged. */
  lemma TargetPathDecodes(cfg: Config, now: Clock, fileName: string)
    ensures var dir := GetOr(cfg.savePath, DefaultSavePath);
      var path := TargetPath(cfg, now, fileName);
      |path| > |dir| && path[..|dir| + 1] == dir + "/"
      && var parts := Split(path[|dir| + 1..], '_');
         ParseTimeStamp(parts[0]) == Some(now)
         && JoinWith(parts[1..], "_") == fileName
  {
    var dir := GetOr(cfg.savePath, DefaultSavePath);
    var ts := TimeStamp(now);
    var path := TargetPath(cfg, now, fileName);
    assert path == (dir + "/") + (ts + "_" + fileName);
    assert path[|dir| + 1..] == ts + ['_'] + fileName;
    assert forall i :: 0 <= i < |ts| ==> ts[i] != '_';
    SplitAtFirstSeparator(ts, fileName, '_');
    JoinWithSplit(fileName, '_');
    TimeStampRoundTrip(now);
  }

  // ---------------------------------------------------------------------------
  // The handler
  // ---------------------------------------------------------------------------

  /** `message`, up to the point where the file link is requested. The guards run in order and
      the first that fails decides: a foreign sender is refused whatever the message holds; an
      authorized message without an attachment gets "no file"; a file over 50 MB is refused
      before its name is looked at; a file whose extension is not an exact entry of the list is
      refused; anything else is accepted with its name, extension and destination path. */
  function HandleMessage(cfg: Config, msg: Message, now: Clock): (r: Outcome)
    ensures r.Unauthorized? <==> !IsAuthorized(cfg, msg)
    ensures r.NoFile? <==> IsAuthorized(cfg, msg) && SelectFile(msg).None?
    ensures r.TooBig? <==>
      IsAuthorized(cfg, msg) && SelectFile(msg).Some? && FileSize(SelectFile(msg).value) > MaxFileSize
    ensures r.ExtensionNotAllowed? <==>
      IsAuthorized(cfg, msg) && SelectFile(msg).Some? && FileSize(SelectFile(msg).value) <= MaxFileSize
      && FileExtension(FileName(SelectFile(msg).value)) !in AllowedExtensions(cfg)
    ensures r.ExtensionNotAllowed? ==>
      r.extension == FileExtension(FileName(SelectFile(msg).value)) && r.allowed == AllowedExtensions(cfg)
    ensures r.Accepted? ==>
      var file := SelectFile(msg).value;
      IsAuthorized(cfg, msg) && FileSize(file) <= MaxFileSize
      && r.fileId == FileId(file) && r.fileName == FileName(file)
      && r.extension == FileExtension(r.fileName) && r.extension in AllowedExtensions(cfg)
      && r.path == TargetPath(cfg, now, r.fileName)
  {
    if SenderUsername(msg) != AllowedUsername(cfg) then Unauthorized
    else
      match SelectFile(msg)
      case None => NoFile
      case Some(file) =>
        if FileSize(file) > MaxFileSize then TooBig
        else
          var fileId := FileId(file);
          var fileName := FileName(file);
          var ext := FileExtension(fileName);
          var allowed := AllowedExtensions(cfg);
          if ext !in allowed then ExtensionNotAllowed(ext, allowed)
          else Accepted(fileId, fileName, ext, TargetPath(cfg, now, fileName))
  }

  /** The reply sent when the handler stops at a guard; an accepted file is answered only after
      its link has been resolved, which is outside this model. */
  function ReplyText(r: Outcome): (text: Option<string>)
    ensures text.None? <==> r.Accepted?
  {
    match r
    case Unauthorized => Some("You are not authorized to send files to this bot.")
    case NoFile => Some("Please send a file.")
    case TooBig => Some("The file is too big. Max allowed size is 50 MB.")
    case ExtensionNotAllowed(ext, allowed) =>
      Some("Files with the ." + ext + " extension are not allowed. Only "
           + JoinWith(allowed, ", ") + " files are accepted.")
    case Accepted(_, _, _, _) => None
  }

  // ---------------------------------------------------------------------------
  // Properties of the guard chain
  // ---------------------------------------------------------------------------

  /** The four guards, in the order the handler checks them. */
  datatype Guard = Authorization | FilePresence | SizeCeiling | ExtensionAllowList

  const GuardOrder: seq<Guard> := [Authorization, FilePresence, SizeCeiling, ExtensionAllowList]

  /** Whether a guard lets the message through, looked at on its own. */
  predicate Passes(g: Guard, cfg: Config, msg: Message)
  {
    match g
    case Authorization => IsAuthorized(cfg, msg)
    case FilePresence => SelectFile(msg).Some?
    case SizeCeiling => SelectFile(msg).None? || FileSize(SelectFile(msg).value) <= MaxFileSize
    case ExtensionAllowList =>
      SelectFile(msg).None? || FileExtension(FileName(SelectFile(msg).value)) in AllowedExtensions(cfg)
  }

  /** The first guard of the list that does not let the message through. */
  function FirstFailing(guards: seq<Guard>, cfg: Config, msg: Message): (g: Option<Guard>)
    ensures g.None? <==> forall i :: 0 <= i < |guards| ==> Passes(guards[i], cfg, msg)
    ensures g.Some? ==> g.value in guards && !Passes(g.value, cfg, msg)
  {
    if guards == [] then None
    else if !Passes(guards[0], cfg, msg) then Some(guards[0])
    else
      assert forall i :: 1 <= i < |guards| ==> guards[i] == guards[1..][i - 1];
      FirstFailing(guards[1..], cfg, msg)
  }

  /** The outcome is decided by the first guard, in the fixed order, that the message fails,
      whatever the later guards would say; a message that passes all four is accepted. */
  lemma HandleMessageFollowsGuardOrder(cfg: Config, msg: Message, now: Clock)
    ensures var r := HandleMessage(cfg, msg, now);
      match FirstFailing(GuardOrder, cfg, msg)
      case Some(Authorization) => r.Unauthorized?
      case Some(FilePresence) => r.NoFile?
      case Some(SizeCeiling) => r.TooBig?
      case Some(ExtensionAllowList) => r.ExtensionNotAllowed?
      case None => r.Accepted?
  {
    var g := GuardOrder;
    assert g[1..] == [FilePresence, SizeCeiling, ExtensionAllowList];
    assert g[1..][1..] == [SizeCeiling, ExtensionAllowList];
    assert g[1..][1..][1..] == [ExtensionAllowList];
    assert FirstFailing(g, cfg, msg)
        == if !Passes(Authorization, cfg, msg) then Some(Authorization) else FirstFailing(g[1..], cfg, msg);
    assert FirstFailing(g[1..], cfg, msg)
        == if !Passes(FilePresence, cfg, msg) then Some(FilePresence) else FirstFailing(g[1..][1..], cfg, msg);
    assert FirstFailing(g[1..][1..], cfg, msg)
        == if !Passes(SizeCeiling, cfg, msg) then Some(SizeCeiling) else FirstFailing(g[1..][1..][1..], cfg, msg);
    if FirstFailing(g, cfg, msg).None? {
      assert Passes(g[0], cfg, msg) && Passes(g[1], cfg, msg);
      assert Passes(g[2], cfg, msg) && Passes(g[3], cfg, msg);
    }
  }

  /** An unauthorized sender gets the same answer whatever the message carries. */
  lemma UnauthorizedIgnoresContent(cfg: Config, m1: Message, m2: Message, now: Clock)
    requires SenderUsername(m1) == SenderUsername(m2) && !IsAuthorized(cfg, m1)
    ensures HandleMessage(cfg, m1, now) == HandleMessage(cfg, m2, now) == Unauthorized
  {
  }

  /** The chosen attachment: the document if present, else audio, video, voice, else the last
      photo size; nothing present (an empty photo array included) means no file. */
  lemma SelectFilePriority(msg: Message)
    ensures msg.document.Some? ==> SelectFile(msg) == msg.document
    ensures msg.document.None? && msg.audio.Some? ==> SelectFile(msg) == msg.audio
    ensures msg.document.None? && msg.audio.None? && msg.video.Some? ==> SelectFile(msg) == msg.video
    ensures msg.document.None? && msg.audio.None? && msg.video.None? && msg.voice.Some?
      ==> SelectFile(msg) == msg.voice
    ensures msg.document.None? && msg.audio.None? && msg.video.None? && msg.voice.None?
      ==> SelectFile(msg) == (if msg.photo.Some? && |msg.photo.value| > 0
                              then Some(msg.photo.value[|msg.photo.value| - 1]) else None)
  {
  }

  /** The size ceiling: a missing size counts as 0, exactly 50 MB passes, one byte more does not. */
  lemma SizeCeilingBoundary(cfg: Config, msg: Message, now: Clock)
    requires IsAuthorized(cfg, msg) && SelectFile(msg).Some?
    ensures var size := SelectFile(msg).value.fileSize;
      (size.None? ==> !HandleMessage(cfg, msg, now).TooBig?)
      && (size == Some(MaxFileSize) ==> !HandleMessage(cfg, msg, now).TooBig?)
      && (size == Some(MaxFileSize + 1) ==> HandleMessage(cfg, msg, now).TooBig?)
  {
    assert MaxFileSize == 52428800;
  }

  /** With `ALLOWED_EXTENSIONS` unset or empty the list is `[""]`: only names without an
      extension are accepted. */
  lemma EmptyAllowListAcceptsOnlyExtensionless(cfg: Config, ext: string)
    requires GetOr(cfg.allowedExtensions, "") == ""
    ensures ext in AllowedExtensions(cfg) <==> ext == ""
  {
    JoinWithLength(AllowedExtensions(cfg), ",");
  }

  /** The list is compared as written and the extension is lower-cased, so an entry with an
      upper-case ASCII letter never matches: with `MP4` configured, `clip.MP4` is refused. */
  lemma UpperCaseEntryNeverMatches(name: string, entry: string, i: nat)
    requires i < |entry| && IsAsciiUpper(entry[i])
    ensures FileExtension(name) != entry
  {
  }

  /** An attachment without a name is stored as `file_<id>`; with a dot-free id its extension
      is empty, so it is accepted only when the list has an empty entry. */
  lemma UnnamedAttachment(cfg: Config, msg: Message, now: Clock)
    requires IsAuthorized(cfg, msg) && SelectFile(msg).Some?
    requires var file := SelectFile(msg).value;
      file.fileName.None? && FileSize(file) <= MaxFileSize && '.' !in FileId(file)
    ensures var r := HandleMessage(cfg, msg, now);
      (r.Accepted? <==> "" in AllowedExtensions(cfg))
      && (r.Accepted? ==> r.fileName == "file_" + r.fileId && r.extension == "")
  {
    var file := SelectFile(msg).value;
    assert '.' !in "file_";
    assert '.' !in FileName(file);
  }
}
