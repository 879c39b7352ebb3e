/** `BackyardToTavernConverter.convert_file` (backyard_to_tavern.py): the
    extraction strategies tried in a fixed order, the first usable result
    winning, the card saved as a TavernAI PNG, and the `stats` dict and
    `failed_files` list updated along the way. Also the round trip the
    converter exists for: a card it saves is found again by the TavernAI
    strategy. */
module BackyardConvert {
  import opened Wrappers
  import opened Text
  import opened Bytes
  import opened Library
  import opened PngCodec
  import opened BackyardPng
  import opened BackyardWrite
  import opened BackyardExtract

  // ---------------------------------------------------------------------
  // The strategy chain
  // ---------------------------------------------------------------------

  /** The strategies, in the order `convert_file` tries them. */
  datatype Strategy = Database | TavernAi | BackyardAiExport | Exif

  /** The name `convert_file` records in `method_usage`. */
  function Label(s: Strategy): string {
    match s
    case Database => "Database"
    case TavernAi => "TavernAI format"
    case BackyardAiExport => "BackyardAI export"
    case Exif => "EXIF format"
  }

  const Order: seq<Strategy> := [Database, TavernAi, BackyardAiExport, Exif]

  /** `if extracted_data:` — a result that is there and truthy. */
  predicate Usable(r: Option<Json>) {
    r.Some? && Truthy(r.value)
  }

  datatype Pick = Pick(strategy: Strategy, card: Json)

  /** What the chain found, and what each strategy it ran added to its counter. */
  datatype Found = Found(pick: Option<Pick>, database: nat, tavern: nat, exported: nat, exif: nat)

  /** The counters of a chain's result agree with its pick: the database
      counts exactly when it is picked, and a picked strategy counted. */
  predicate Consistent(f: Found) {
    && f.database == (if f.pick.Some? && f.pick.value.strategy == Database then 1 else 0)
    && (f.pick.Some? && f.pick.value.strategy == TavernAi ==> f.tavern > 0)
    && (f.pick.Some? && f.pick.value.strategy == BackyardAiExport ==> f.exported > 0)
    && (f.pick.Some? && f.pick.value.strategy == Exif ==> f.exif > 0)
  }

  /** A strategy result that counted whenever it found something, as all
      three PNG strategies do. */
  predicate CountsFinds(x: Extraction) {
    x.data.Some? ==> x.counted > 0
  }

  /** The cascade of `convert_file` over the results of the strategies: `db`
      is what the database lookup returned (None when no database is open or it
      found nothing), and each later strategy counts only when it runs, that
      is while the result so far is not usable. */
  function ChainOf(db: Option<Json>, tavern: Extraction, exported: Extraction, exif: Extraction): (r: Found)
    requires CountsFinds(tavern) && CountsFinds(exported) && CountsFinds(exif)
    ensures r.pick.Some? ==> Truthy(r.pick.value.card)
    ensures Consistent(r)
  {
    if Usable(db) then Found(Some(Pick(Database, db.value)), 1, 0, 0, 0)
    else if Usable(tavern.data) then Found(Some(Pick(TavernAi, tavern.data.value)), 0, tavern.counted, 0, 0)
    else if Usable(exported.data) then
      Found(Some(Pick(BackyardAiExport, exported.data.value)), 0, tavern.counted, exported.counted, 0)
    else if Usable(exif.data) then
      Found(Some(Pick(Exif, exif.data.value)), 0, tavern.counted, exported.counted, exif.counted)
    else Found(None, 0, tavern.counted, exported.counted, exif.counted)
  }

  /** The chain of `convert_file` on the bytes of a file. */
  function Extract(png: seq<byte>, db: Option<Json>, lib: Primitives): Found {
    ChainOf(db, TavernFormat(png, lib), BackyardExport(png, lib), ExifFormat(png, lib))
  }

  /** The results of the strategies, in `Order`. */
  function Candidates(db: Option<Json>, tavern: Extraction, exported: Extraction, exif: Extraction): (r: seq<Option<Json>>)
    ensures |r| == |Order|
  {
    [db, tavern.data, exported.data, exif.data]
  }

  /** The index of the first usable result. */
  function FirstUsable(cs: seq<Option<Json>>): (r: Option<nat>)
    ensures r.Some? ==> r.value < |cs| && Usable(cs[r.value]) && forall j :: 0 <= j < r.value ==> !Usable(cs[j])
    ensures r.None? ==> forall j :: 0 <= j < |cs| ==> !Usable(cs[j])
    decreases |cs|
  {
    if |cs| == 0 then None
    else if Usable(cs[0]) then Some(0)
    else match FirstUsable(cs[1..])
      case None => None
      case Some(k) => Some(k + 1)
  }

  /** The chain picks the first strategy, in `Order`, whose result is usable,
      and fails exactly when none is. */
  lemma ChainPicksFirst(db: Option<Json>, tavern: Extraction, exported: Extraction, exif: Extraction)
    requires CountsFinds(tavern) && CountsFinds(exported) && CountsFinds(exif)
    ensures var cs := Candidates(db, tavern, exported, exif); var r := ChainOf(db, tavern, exported, exif);
      && (r.pick.None? <==> FirstUsable(cs).None?)
      && (r.pick.Some? ==> var k := FirstUsable(cs).value;
            r.pick.value.strategy == Order[k] && Some(r.pick.value.card) == cs[k])
  {
    var cs := Candidates(db, tavern, exported, exif);
    var k := FirstUsable(cs);
    if Usable(cs[0]) {
      assert k == Some(0);
    } else if Usable(cs[1]) {
      assert k == Some(1);
    } else if Usable(cs[2]) {
      assert k == Some(2);
    } else if Usable(cs[3]) {
      assert k == Some(3);
    } else {
      assert k.None?;
    }
  }

  /** With no database entry, a usable TavernAI result wins whatever the later strategies return. */
  lemma ChainPicksTavern(tavern: Extraction, exported: Extraction, exif: Extraction)
    requires CountsFinds(tavern) && CountsFinds(exported) && CountsFinds(exif)
    requires Usable(tavern.data)
    ensures ChainOf(None, tavern, exported, exif) == Found(Some(Pick(TavernAi, tavern.data.value)), 0, tavern.counted, 0, 0)
  {
  }

  /** All three PNG strategies count what they find. */
  lemma StrategiesCountFinds(png: seq<byte>, lib: Primitives)
    ensures CountsFinds(TavernFormat(png, lib)) && CountsFinds(BackyardExport(png, lib)) && CountsFinds(ExifFormat(png, lib))
  {
  }

  // ---------------------------------------------------------------------
  // One conversion and the stats it leaves
  // ---------------------------------------------------------------------

  /** `self.stats`. The two batch-mode counters `json_only` and `png_files` are
      never changed by `convert_file`; `method_usage` is keyed by strategy. */
  datatype Stats = Stats(
    total: nat,
    success: nat,
    failed: nat,
    methodUsage: map<Strategy, nat>,
    databaseExtraction: nat,
    tavernFormat: nat,
    backyardExport: nat,
    exifFormat: nat,
    jsonOnly: nat,
    pngFiles: nat)

  const InitialStats: Stats := Stats(0, 0, 0, map[], 0, 0, 0, 0, 0, 0)

  /** How a conversion ended: the file could not be read, no strategy found a
      card, naming the output file raised out of `convert_file`, saving
      raised, or the card was saved with these bytes. */
  datatype Outcome =
    | Unreadable
    | NotExtracted(found: Found)
    | NamingRaised(found: Found, strategy: Strategy)
    | SaveFailed(found: Found, strategy: Strategy)
    | Saved(found: Found, strategy: Strategy, png: seq<byte>)

  /** An outcome whose chain result is consistent and agrees with it on the strategy picked. */
  predicate WellCounted(o: Outcome) {
    match o
    case Unreadable => true
    case NotExtracted(f) => Consistent(f) && f.pick.None?
    case NamingRaised(f, strategy) => Consistent(f) && f.pick.Some? && f.pick.value.strategy == strategy
    case SaveFailed(f, strategy) => Consistent(f) && f.pick.Some? && f.pick.value.strategy == strategy
    case Saved(f, strategy, _) => Consistent(f) && f.pick.Some? && f.pick.value.strategy == strategy
  }

  /** `sanitize_filename(value)` raises on a truthy value it cannot iterate as
      strings: a number, `True`, or a list holding something other than a
      string. A string passes, and so does a dict, whose keys it iterates. */
  predicate SanitizeRaises(v: Json) {
    Truthy(v) && match v
      case Str(_) => false
      case Obj(_) => false
      case Arr(items) => exists i :: 0 <= i < |items| && !items[i].Str?
      case _ => true
  }

  /** The naming step of `convert_file` in batch mode without an output path
      raises: `.get` on a card that is not a dict, or `sanitize_filename` on
      its name (`baseName`, the file's own name, when it has none) or on a
      truthy display name different from it. Nothing there is inside a `try`. */
  predicate NamingRaises(card: Json, baseName: string) {
    if !card.Obj? then true
    else
      var name := GetOr(card.fields, "name", Str(baseName));
      var display := GetOr(card.fields, "display_name", Str(""));
      SanitizeRaises(name) || (Truthy(display) && display != name && SanitizeRaises(display))
  }

  /** The outcome of `convert_file` on a file whose contents are `contents`
      (None when it does not exist or cannot be read); `outputGiven` says
      whether the caller passed an output path, and `baseName` is the input
      file's name without its extension. */
  function ConvertOutcome(contents: Option<seq<byte>>, db: Option<Json>, fromBatch: bool, outputGiven: bool,
                          baseName: string, created: int, modified: int, lib: Primitives): (r: Outcome)
    ensures contents.None? <==> r.Unreadable?
    ensures WellCounted(r)
    ensures r.NamingRaised? <==> (contents.Some? && Extract(contents.value, db, lib).pick.Some?
      && fromBatch && !outputGiven && NamingRaises(Extract(contents.value, db, lib).pick.value.card, baseName))
    ensures r.Saved? ==> (Extract(contents.value, db, lib).pick.Some?
      && SavedCard(Extract(contents.value, db, lib).pick.value.card, contents.value, created, modified, lib) == Some(r.png))
  {
    match contents
    case None => Unreadable
    case Some(png) =>
      var found := Extract(png, db, lib);
      match found.pick
      case None => NotExtracted(found)
      case Some(p) =>
        if fromBatch && !outputGiven && NamingRaises(p.card, baseName) then NamingRaised(found, p.strategy)
        else match SavedCard(p.card, png, created, modified, lib)
          case None => SaveFailed(found, p.strategy)
          case Some(out) => Saved(found, p.strategy, out)
  }

  function UsageOf(m: map<Strategy, nat>, key: Strategy): nat {
    if key in m then m[key] else 0
  }

  /** `method_usage[key] += 1`, creating the entry at 0 first. */
  function Bump(m: map<Strategy, nat>, key: Strategy): (r: map<Strategy, nat>)
    ensures forall k :: UsageOf(r, k) == UsageOf(m, k) + (if k == key then 1 else 0)
  {
    m[key := UsageOf(m, key) + 1]
  }

  /** The counters the strategies that ran add to. */
  function Counted(s: Stats, f: Found): Stats {
    s.(databaseExtraction := s.databaseExtraction + f.database,
       tavernFormat := s.tavernFormat + f.tavern,
       backyardExport := s.backyardExport + f.exported,
       exifFormat := s.exifFormat + f.exif)
  }

  /** `self.stats` after `convert_file`; `total` counts only calls from outside the batch. */
  function Tallied(s: Stats, o: Outcome, fromBatch: bool): Stats {
    var s1 := if fromBatch then s else s.(total := s.total + 1);
    match o
    case Unreadable => s1.(failed := s1.failed + 1)
    case NotExtracted(f) => Counted(s1, f).(failed := s1.failed + 1)
    case NamingRaised(f, strategy) => Counted(s1, f).(methodUsage := Bump(s1.methodUsage, strategy))
    case SaveFailed(f, strategy) => Counted(s1, f).(methodUsage := Bump(s1.methodUsage, strategy), failed := s1.failed + 1)
    case Saved(f, strategy, _) => Counted(s1, f).(methodUsage := Bump(s1.methodUsage, strategy), success := s1.success + 1)
  }

  /** All uses recorded in `method_usage`. */
  function UsageTotal(m: map<Strategy, nat>): nat {
    UsageOf(m, Database) + UsageOf(m, TavernAi) + UsageOf(m, BackyardAiExport) + UsageOf(m, Exif)
  }

  /** What the counters keep to across conversions, with `failures` entries in
      `failed_files` and `escaped` conversions that raised out of
      `convert_file`: every failure is listed, `database_extraction` is the
      database's use count, each other strategy's counter is at least its use
      count, and every success used a strategy while every use ended in a
      success, a failure or an escaped exception. */
  predicate StatsInvariant(s: Stats, failures: nat, escaped: nat) {
    && s.failed == failures
    && UsageOf(s.methodUsage, Database) == s.databaseExtraction
    && UsageOf(s.methodUsage, TavernAi) <= s.tavernFormat
    && UsageOf(s.methodUsage, BackyardAiExport) <= s.backyardExport
    && UsageOf(s.methodUsage, Exif) <= s.exifFormat
    && s.success <= UsageTotal(s.methodUsage) <= s.success + s.failed + escaped
  }

  /** One more use of a strategy adds one to the total. */
  lemma BumpTotal(m: map<Strategy, nat>, key: Strategy)
    ensures UsageTotal(Bump(m, key)) == UsageTotal(m) + 1
  {
    var r := Bump(m, key);
    assert UsageOf(r, Database) == UsageOf(m, Database) + (if key == Database then 1 else 0);
    assert UsageOf(r, TavernAi) == UsageOf(m, TavernAi) + (if key == TavernAi then 1 else 0);
    assert UsageOf(r, BackyardAiExport) == UsageOf(m, BackyardAiExport) + (if key == BackyardAiExport then 1 else 0);
    assert UsageOf(r, Exif) == UsageOf(m, Exif) + (if key == Exif then 1 else 0);
  }

  /** Adding the chain's counts and one use of the strategy it picked keeps the
      counters in step with the usage. */
  lemma CountedUsage(s: Stats, escaped: nat, f: Found, strategy: Strategy)
    requires StatsInvariant(s, s.failed, escaped) && Consistent(f) && f.pick.Some? && f.pick.value.strategy == strategy
    ensures var t := Counted(s, f).(methodUsage := Bump(s.methodUsage, strategy));
      && UsageOf(t.methodUsage, Database) == t.databaseExtraction
      && UsageOf(t.methodUsage, TavernAi) <= t.tavernFormat
      && UsageOf(t.methodUsage, BackyardAiExport) <= t.backyardExport
      && UsageOf(t.methodUsage, Exif) <= t.exifFormat
      && UsageTotal(t.methodUsage) == UsageTotal(s.methodUsage) + 1
  {
    BumpTotal(s.methodUsage, strategy);
  }

  /** A conversion keeps the invariant; unless it raised out of
      `convert_file`, it counts exactly one success or one failure and lists
      the file as failed exactly when it was not saved. */
  lemma TalliedInvariant(s: Stats, failures: nat, escaped: nat, o: Outcome, fromBatch: bool)
    requires StatsInvariant(s, failures, escaped) && WellCounted(o)
    ensures var t := Tallied(s, o, fromBatch);
      && StatsInvariant(t, failures + (if o.Saved? || o.NamingRaised? then 0 else 1), escaped + if o.NamingRaised? then 1 else 0)
      && t.success + t.failed == s.success + s.failed + (if o.NamingRaised? then 0 else 1)
      && (t.success == s.success + 1 <==> o.Saved?)
      && t.total == s.total + (if fromBatch then 0 else 1)
      && t.jsonOnly == s.jsonOnly && t.pngFiles == s.pngFiles
  {
    var s1 := if fromBatch then s else s.(total := s.total + 1);
    match o
    case Unreadable =>
    case NotExtracted(f) =>
    case NamingRaised(f, strategy) => CountedUsage(s1, escaped, f, strategy);
    case SaveFailed(f, strategy) => CountedUsage(s1, escaped, f, strategy);
    case Saved(f, strategy, _) => CountedUsage(s1, escaped, f, strategy);
  }

  /** The counters start out consistent. */
  lemma InitialStatsInvariant()
    ensures StatsInvariant(InitialStats, 0, 0)
  {
  }

  /** The converter's mutable state: `self.stats` and `self.failed_files`;
      `escaped` counts the conversions that raised out of `convert_file`. */
  class Converter {
    var stats: Stats
    var failedFiles: seq<string>
    ghost var escaped: nat

    ghost predicate Valid()
      reads this
    {
      StatsInvariant(stats, |failedFiles|, escaped)
    }

    constructor ()
      ensures stats == InitialStats && failedFiles == [] && escaped == 0
      ensures Valid()
    {
      stats := InitialStats;
      failedFiles := [];
      escaped := 0;
    }

    /** The bookkeeping of `convert_file` for a conversion that ended in `o`:
        `total` for a call from outside the batch, then a failure (counted and
        the path listed) or the strategies' counters and the use of the
        strategy picked, after which either the naming step raises or the
        save succeeds or fails. */
    method Record(path: string, o: Outcome, fromBatch: bool)
      requires Valid() && WellCounted(o)
      modifies this
      ensures Valid()
      ensures stats == Tallied(old(stats), o, fromBatch)
      ensures failedFiles == old(failedFiles) + (if o.Saved? || o.NamingRaised? then [] else [path])
      ensures escaped == old(escaped) + if o.NamingRaised? then 1 else 0
    {
      TalliedInvariant(stats, |failedFiles|, escaped, o, fromBatch);
      if !fromBatch {
        stats := stats.(total := stats.total + 1);
      }
      if o.Unreadable? {
        stats := stats.(failed := stats.failed + 1);
        failedFiles := failedFiles + [path];
        return;
      }
      stats := Counted(stats, o.found);
      if o.NotExtracted? {
        stats := stats.(failed := stats.failed + 1);
        failedFiles := failedFiles + [path];
        return;
      }
      stats := stats.(methodUsage := Bump(stats.methodUsage, o.strategy));
      if o.NamingRaised? {
        escaped := escaped + 1;
        return;
      }
      if o.SaveFailed? {
        stats := stats.(failed := stats.failed + 1);
        failedFiles := failedFiles + [path];
        return;
      }
      stats := stats.(success := stats.success + 1);
    }

    /** `convert_file(input_path, output_path, ...)`: `contents` is the
        file read (None when it is missing or unreadable), `db` the database
        lookup's result, `outputGiven` whether `output_path` was passed,
        `baseName` the input's file name without its extension,
        `created`/`modified` the timestamps. Returns whether the card was
        saved, the bytes written, and whether the naming step raised out of
        the call. */
    method ConvertFile(path: string, contents: Option<seq<byte>>, db: Option<Json>, fromBatch: bool,
                       outputGiven: bool, baseName: string, created: int, modified: int, lib: Primitives)
      returns (ok: bool, written: Option<seq<byte>>, raised: bool)
      requires Valid()
      modifies this
      ensures Valid()
      ensures var o := ConvertOutcome(contents, db, fromBatch, outputGiven, baseName, created, modified, lib);
        && stats == Tallied(old(stats), o, fromBatch)
        && failedFiles == old(failedFiles) + (if o.Saved? || o.NamingRaised? then [] else [path])
        && escaped == old(escaped) + (if o.NamingRaised? then 1 else 0)
        && ok == o.Saved?
        && raised == o.NamingRaised?
        && written == (if o.Saved? then Some(o.png) else None)
    {
      var outcome: Outcome;
      if contents.None? {
        outcome := Unreadable;
      } else {
        var png := contents.value;
        // the strategies run in order until one finds a usable card, each
        // adding to its own counter as it runs
        var found := Extract(png, db, lib);
        if found.pick.None? {
          outcome := NotExtracted(found);
        } else {
          var pick := found.pick.value;
          if fromBatch && !outputGiven && NamingRaises(pick.card, baseName) {
            outcome := NamingRaised(found, pick.strategy);
          } else {
            written := SaveTavernCard(pick.card, png, created, modified, lib);
            if written.None? {
              outcome := SaveFailed(found, pick.strategy);
            } else {
              outcome := Saved(found, pick.strategy, written.value);
            }
          }
        }
      }
      assert outcome == ConvertOutcome(contents, db, fromBatch, outputGiven, baseName, created, modified, lib);
      Record(path, outcome, fromBatch);
      ok := outcome.Saved?;
      raised := outcome.NamingRaised?;
      written := if outcome.Saved? then Some(outcome.png) else None;
    }
  }

  // ---------------------------------------------------------------------
  // Saved cards are found again
  // ---------------------------------------------------------------------

  /** The card `save_tavern_card` embeds for a dict character. */
  function EmbeddedCard(charData: Json, created: int, modified: int): (r: Json)
    requires charData.Obj?
    ensures r.Obj? && Truthy(r) && "display_name" !in r.fields
  {
    var m := CardFields(charData.fields, created, modified);
    assert "metadata" in m;
    Obj(m)
  }

  /** A file the writer produces begins with the PNG signature, so with `\x89PNG`. */
  lemma WrittenPngMagic(cs: seq<Chunk>)
    requires WrittenPng(cs).Some?
    ensures StartsWith(WrittenPng(cs).value, PngMagic)
  {
    assert WrittenPng(cs).value[..4] == Signature[..4];
  }

  /** The new `chara` chunk is recognised by the tavern scan and its payload decoded. */
  lemma CharaChunkScanned(card: Json, rest: seq<Chunk>, lib: Primitives)
    ensures TavernScan([CharaChunk(CharaPayload(card, lib))] + rest, lib)
      == TavernChara(lib.b64Encode(lib.utf8Encode(lib.jsonDumps(card, CompactUnicode))), lib)
  {
    var b64 := lib.b64Encode(lib.utf8Encode(lib.jsonDumps(card, CompactUnicode)));
    var c := CharaChunk(CharaPayload(card, lib));
    var data := c.data;
    assert data == CharaPrefix + b64;
    assert data[5..6] == [Nul];
    assert OccursAt(data, [Nul], 5);
    forall i | 0 <= i < 5 ensures !OccursAt(data, [Nul], i) {
      assert data[i..i + 1] == [data[i]];
    }
    var k := Find(data, [Nul], 0);
    assert k == 5;
    assert data[..k] == BackyardExtract.CharaKeyword;
    assert data[k + 1..] == b64;
    assert ([c] + rest)[0] == c;
  }

  /** The chunks kept from a file read pass the tavern scan by, when every
      `tEXt` chunk there has a NUL. */
  lemma KeptChunksSkipped(chunks: seq<Chunk>, kept: seq<Chunk>)
    requires forall c :: c in chunks && IsText(c) ==> Nul in c.data
    requires forall c :: c in kept ==> c in chunks && KeepChunk(c)
    ensures forall c :: c in kept ==> TavernSkips(c)
  {
    assert CharaPrefix == BackyardExtract.CharaKeyword + [Nul];
    forall c | c in kept ensures TavernSkips(c) {
      if IsText(c) {
        SkipsWithoutChara(c, CharaPrefix);
      }
    }
  }

  /** The tavern scan of the rewritten chunk list decodes the new chunk's
      payload, when every `tEXt` chunk of the original list has a NUL. */
  lemma RewrittenScanned(chunks: seq<Chunk>, card: Json, lib: Primitives)
    requires forall c :: c in chunks && IsText(c) ==> Nul in c.data
    ensures TavernScan(RewrittenChunks(chunks, CharaChunk(CharaPayload(card, lib))), lib)
      == TavernChara(lib.b64Encode(lib.utf8Encode(lib.jsonDumps(card, CompactUnicode))), lib)
  {
    var chara := CharaChunk(CharaPayload(card, lib));
    var kept := Filter(KeepChunk, chunks);
    var k := IendIndex(kept);
    KeptChunksSkipped(chunks, kept[..k]);
    assert RewrittenChunks(chunks, chara) == kept[..k] + ([chara] + kept[k..]);
    TavernScanSkips(kept[..k], [chara] + kept[k..], lib);
    CharaChunkScanned(card, kept[k..], lib);
  }

  /** The TavernAI strategy finds the card `save_tavern_card` wrote, as
      `json.loads` of the JSON text it embedded, when the file it started from
      reads with four-letter chunk types and NULs in its `tEXt` chunks, and
      the new chunk fits a 32-bit length. */
  lemma SavedCardExtracted(charData: Json, original: seq<byte>, created: int, modified: int, lib: Primitives)
    requires CodecLaws(lib) && charData.Obj?
    requires forall c :: c in CheckedChunks(original) ==> |c.kind| == 4
    requires forall c :: c in CheckedChunks(original) && IsText(c) ==> Nul in c.data
    requires |CharaPayload(EmbeddedCard(charData, created, modified), lib)| < TWO_32
    ensures SavedCard(charData, original, created, modified, lib).Some?
    ensures TavernFormat(SavedCard(charData, original, created, modified, lib).value, lib)
      == Extraction(lib.jsonLoads(lib.jsonDumps(EmbeddedCard(charData, created, modified), CompactUnicode)), 1)
  {
    var card := EmbeddedCard(charData, created, modified);
    SavedCardReadsBack(charData, original, created, modified, lib);
    CharaDataUnderLaws(card, lib);
    var r := RewrittenChunks(CheckedChunks(original), CharaChunk(CharaPayload(card, lib)));
    assert SavedCard(charData, original, created, modified, lib) == WrittenPng(r);
    WrittenPngMagic(r);
    RewrittenScanned(CheckedChunks(original), card, lib);
    TavernCharaRoundTrip(lib.jsonDumps(card, CompactUnicode), lib);
  }

  /** Converting a saved card again, with no database entry, picks the
      TavernAI strategy and recovers the embedded card, when `json.loads`
      inverts `json.dumps` on it. */
  lemma ReconvertPicksTavern(charData: Json, original: seq<byte>, created: int, modified: int, lib: Primitives)
    requires CodecLaws(lib) && charData.Obj?
    requires forall c :: c in CheckedChunks(original) ==> |c.kind| == 4
    requires forall c :: c in CheckedChunks(original) && IsText(c) ==> Nul in c.data
    requires |CharaPayload(EmbeddedCard(charData, created, modified), lib)| < TWO_32
    requires var card := EmbeddedCard(charData, created, modified);
      lib.jsonLoads(lib.jsonDumps(card, CompactUnicode)) == Some(card)
    ensures SavedCard(charData, original, created, modified, lib).Some?
    ensures Extract(SavedCard(charData, original, created, modified, lib).value, None, lib)
      == Found(Some(Pick(TavernAi, EmbeddedCard(charData, created, modified))), 0, 1, 0, 0)
  {
    SavedCardExtracted(charData, original, created, modified, lib);
    var saved := SavedCard(charData, original, created, modified, lib).value;
    StrategiesCountFinds(saved, lib);
    ChainPicksTavern(TavernFormat(saved, lib), BackyardExport(saved, lib), ExifFormat(saved, lib));
  }
}
