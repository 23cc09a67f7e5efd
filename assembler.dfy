/** The baseline assembler: collects one ECU manifest fragment per
    repository directory and wraps them in a new baseline record
    (scripts/combine_manifests.py). */
module Assembler {
  import opened Values

  /** One name listed in the artifacts directory, with the parsed content of
      its `ecu-manifest.yaml`, or `None` when that file does not exist. */
  datatype Entry = Entry(repo: string, manifest: Option<Value>)

  datatype AssembleError =
    | ArtifactsDirNotFound           // "Artifacts directory not found"
    | ManifestNotFound(repo: string) // "ecu-manifest.yaml not found for repo '<repo>'"
    | NoManifests                    // "No ECU manifests found"

  predicate AllPresent(entries: seq<Entry>)
  {
    forall i :: 0 <= i < |entries| ==> entries[i].manifest.Some?
  }

  /** The fragments of a complete listing, in listing order. */
  function Fragments(entries: seq<Entry>): (ecus: seq<Value>)
    requires AllPresent(entries)
    ensures |ecus| == |entries|
    ensures forall i :: 0 <= i < |entries| ==> entries[i].manifest == Some(ecus[i])
  {
    seq(|entries|, i requires 0 <= i < |entries| => entries[i].manifest.value)
  }

  /** `load_ecu_manifests`. `listing` is `None` when the artifacts directory
      does not exist; otherwise it lists the directory in enumeration order. */
  method LoadEcuManifests(listing: Option<seq<Entry>>) returns (r: Result<seq<Value>, AssembleError>)
    ensures r == Err(ArtifactsDirNotFound) <==> listing.None?
    ensures r == Err(NoManifests) <==> listing == Some([])
    ensures r.Ok? <==> listing.Some? && |listing.value| > 0 && AllPresent(listing.value)
    ensures r.Ok? ==> r.value == Fragments(listing.value)
    ensures r.Err? && r.error.ManifestNotFound? ==>
              exists k :: 0 <= k < |listing.value| && AllPresent(listing.value[..k])
                          && listing.value[k] == Entry(r.error.repo, None)
  {
    if listing.None? {
      return Err(ArtifactsDirNotFound);
    }
    var entries := listing.value;
    var ecus: seq<Value> := [];
    var i := 0;
    while i < |entries|
      invariant 0 <= i <= |entries|
      invariant AllPresent(entries[..i])
      invariant |ecus| == i
      invariant forall j :: 0 <= j < i ==> entries[j].manifest == Some(ecus[j])
    {
      match entries[i].manifest {
        case None =>
          assert entries[i] == Entry(entries[i].repo, None);
          return Err(ManifestNotFound(entries[i].repo));
        case Some(m) =>
          ecus := ecus + [m];
      }
      assert forall j :: 0 <= j <= i ==> entries[..i + 1][j] == entries[j];
      i := i + 1;
    }
    assert entries[..i] == entries;
    if ecus == [] {
      return Err(NoManifests);
    }
    return Ok(ecus);
  }

  // ---------------------------------------------------------------------
  // The baseline identifier: "baseline-" + strftime('%Y%m%d-%H%M%S')
  // ---------------------------------------------------------------------

  /** A reading of `datetime.utcnow()`. */
  datatype DateTime = DateTime(year: int, month: int, day: int,
                               hour: int, minute: int, second: int, microsecond: int)

  predicate IsLeapYear(y: int)
  {
    y % 4 == 0 && (y % 100 != 0 || y % 400 == 0)
  }

  function DaysInMonth(year: int, month: int): int
  {
    if month == 2 then (if IsLeapYear(year) then 29 else 28)
    else if month == 4 || month == 6 || month == 9 || month == 11 then 30
    else 31
  }

  /** The range Python's `datetime` accepts. */
  predicate ValidDateTime(t: DateTime)
  {
    1 <= t.year <= 9999 && 1 <= t.month <= 12 && 1 <= t.day <= DaysInMonth(t.year, t.month)
    && 0 <= t.hour < 24 && 0 <= t.minute < 60 && 0 <= t.second < 60
    && 0 <= t.microsecond < 1000000
  }

  /** The same instant without its fraction of a second. */
  function WholeSecond(t: DateTime): DateTime
  {
    t.(microsecond := 0)
  }

  function Pow10(n: nat): nat
  {
    if n == 0 then 1 else 10 * Pow10(n - 1)
  }

  predicate IsDigit(c: char)
  {
    '0' <= c <= '9'
  }

  predicate AllDigits(s: string)
  {
    forall i :: 0 <= i < |s| ==> IsDigit(s[i])
  }

  function DigitChar(d: int): (c: char)
    requires 0 <= d < 10
    ensures IsDigit(c)
  {
    ('0' as int + d) as char
  }

  /** The number a string of decimal digits spells. */
  function DecimalValue(s: string): nat
    requires AllDigits(s)
  {
    if s == [] then 0
    else DecimalValue(s[..|s| - 1]) * 10 + (s[|s| - 1] as int - '0' as int)
  }

  /** `n` in decimal on exactly `width` digits, zero padded on the left, as
      `strftime` writes %m, %d, %H, %M, %S (width 2) and %Y (width 4). */
  function ZeroPadded(n: nat, width: nat): (s: string)
    requires n < Pow10(width)
    ensures |s| == width && AllDigits(s)
    decreases width
  {
    if width == 0 then []
    else ZeroPadded(n / 10, width - 1) + [DigitChar(n % 10)]
  }

  /** Reading the padded digits back gives the number. */
  lemma {:induction false} ZeroPaddedRoundTrip(n: nat, width: nat)
    requires n < Pow10(width)
    ensures DecimalValue(ZeroPadded(n, width)) == n
    decreases width
  {
    if width > 0 {
      var s := ZeroPadded(n, width);
      ZeroPaddedRoundTrip(n / 10, width - 1);
      assert s[..|s| - 1] == ZeroPadded(n / 10, width - 1);
      assert s[|s| - 1] == DigitChar(n % 10);
    }
  }

  const IdPrefix: string := "baseline-"

  /** The identifier the assembler gives a baseline built at instant `t`. */
  function BaselineId(t: DateTime): (id: string)
    requires ValidDateTime(t)
  {
    IdPrefix
    + ZeroPadded(t.year, 4) + ZeroPadded(t.month, 2) + ZeroPadded(t.day, 2)
    + "-"
    + ZeroPadded(t.hour, 2) + ZeroPadded(t.minute, 2) + ZeroPadded(t.second, 2)
  }

  /** The shape of every identifier: the prefix, eight date digits, a dash
      and six time digits, 24 characters in all. */
  predicate IsBaselineIdShape(id: string)
  {
    |id| == 24 && id[..9] == IdPrefix && id[17] == '-'
    && AllDigits(id[9..17]) && AllDigits(id[18..])
  }

  /** Reads the instant back out of an identifier. */
  function ParseBaselineId(id: string): Option<DateTime>
  {
    if !IsBaselineIdShape(id) then None
    else
      var date, time := id[9..17], id[18..];
      Some(DateTime(DecimalValue(date[..4]), DecimalValue(date[4..6]), DecimalValue(date[6..]),
                    DecimalValue(time[..2]), DecimalValue(time[2..4]), DecimalValue(time[4..]), 0))
  }

  /** The identifier is the prefix, the date digits, a dash and the time digits. */
  lemma BaselineIdParts(t: DateTime)
    requires ValidDateTime(t)
    ensures var id := BaselineId(t);
      |id| == 24 && id[..9] == IdPrefix && id[17] == '-'
      && id[9..17] == ZeroPadded(t.year, 4) + ZeroPadded(t.month, 2) + ZeroPadded(t.day, 2)
      && id[18..] == ZeroPadded(t.hour, 2) + ZeroPadded(t.minute, 2) + ZeroPadded(t.second, 2)
  {
    var date := ZeroPadded(t.year, 4) + ZeroPadded(t.month, 2) + ZeroPadded(t.day, 2);
    var time := ZeroPadded(t.hour, 2) + ZeroPadded(t.minute, 2) + ZeroPadded(t.second, 2);
    assert BaselineId(t) == IdPrefix + date + "-" + time;
    assert (IdPrefix + date + "-") + time == BaselineId(t);
  }

  /** Every identifier has the documented shape, and parsing it gives back
      the instant it was made from, to the second. */
  lemma BaselineIdRoundTrip(t: DateTime)
    requires ValidDateTime(t)
    ensures IsBaselineIdShape(BaselineId(t))
    ensures ParseBaselineId(BaselineId(t)) == Some(WholeSecond(t))
  {
    var id := BaselineId(t);
    BaselineIdParts(t);
    var y, mo, d := ZeroPadded(t.year, 4), ZeroPadded(t.month, 2), ZeroPadded(t.day, 2);
    var h, mi, s := ZeroPadded(t.hour, 2), ZeroPadded(t.minute, 2), ZeroPadded(t.second, 2);
    var date, time := id[9..17], id[18..];
    assert date == y + mo + d && time == h + mi + s;
    assert date[..4] == y && date[4..6] == mo && date[6..] == d;
    assert time[..2] == h && time[2..4] == mi && time[4..] == s;
    ZeroPaddedRoundTrip(t.year, 4);
    ZeroPaddedRoundTrip(t.month, 2);
    ZeroPaddedRoundTrip(t.day, 2);
    ZeroPaddedRoundTrip(t.hour, 2);
    ZeroPaddedRoundTrip(t.minute, 2);
    ZeroPaddedRoundTrip(t.second, 2);
  }

  /** Two assemblies get the same identifier exactly when their clocks read
      the same second. */
  lemma BaselineIdCollidesWithinOneSecond(t1: DateTime, t2: DateTime)
    requires ValidDateTime(t1) && ValidDateTime(t2)
    ensures BaselineId(t1) == BaselineId(t2) <==> WholeSecond(t1) == WholeSecond(t2)
  {
    BaselineIdRoundTrip(t1);
    BaselineIdRoundTrip(t2);
    if WholeSecond(t1) == WholeSecond(t2) {
      assert t1.year == t2.year && t1.month == t2.month && t1.day == t2.day;
      assert t1.hour == t2.hour && t1.minute == t2.minute && t1.second == t2.second;
    }
  }

  // ---------------------------------------------------------------------
  // The baseline record
  // ---------------------------------------------------------------------

  /** A freshly assembled baseline: exactly the four keys, the state
      `ASSEMBLED`, the given fragments, an identifier that reads back as the
      clock's second, and the creation text with a `Z` appended. */
  predicate Assembled(baseline: Value, ecus: seq<Value>, idClock: DateTime, createdIso: string)
  {
    baseline.Map?
    && baseline.fields.Keys == {"baseline_id", "state", "created_at", "ecus"}
    && baseline.fields["state"] == Str("ASSEMBLED")
    && baseline.fields["ecus"] == List(ecus)
    && baseline.fields["baseline_id"].Str?
    && ParseBaselineId(baseline.fields["baseline_id"].s) == Some(WholeSecond(idClock))
    && baseline.fields["created_at"] == Str(createdIso + "Z")
  }

  /** `create_baseline_manifest`. The script reads the clock twice: `idClock`
      is the first reading, `createdIso` the `isoformat()` text of the second. */
  function CreateBaselineManifest(ecus: seq<Value>, idClock: DateTime, createdIso: string): (baseline: Value)
    requires ValidDateTime(idClock)
    ensures Assembled(baseline, ecus, idClock, createdIso)
  {
    BaselineIdRoundTrip(idClock);
    Map(map[
      "baseline_id" := Str(BaselineId(idClock)),
      "state" := Str("ASSEMBLED"),
      "created_at" := Str(createdIso + "Z"),
      "ecus" := List(ecus)
    ])
  }

  /** The script's `main` minus the file write: the baseline it would write,
      or the error it would report before exiting with status 1. */
  method GenerateBaseline(listing: Option<seq<Entry>>, idClock: DateTime, createdIso: string)
    returns (r: Result<Value, AssembleError>)
    requires ValidDateTime(idClock)
    ensures r.Ok? <==> listing.Some? && |listing.value| > 0 && AllPresent(listing.value)
    ensures r.Ok? ==> r.value == CreateBaselineManifest(Fragments(listing.value), idClock, createdIso)
    ensures r == Err(ArtifactsDirNotFound) <==> listing.None?
    ensures r == Err(NoManifests) <==> listing == Some([])
    ensures r.Err? && r.error.ManifestNotFound? ==>
              exists k :: 0 <= k < |listing.value| && AllPresent(listing.value[..k])
                          && listing.value[k] == Entry(r.error.repo, None)
  {
    var loaded := LoadEcuManifests(listing);
    match loaded {
      case Err(e) => return Err(e);
      case Ok(ecus) => return Ok(CreateBaselineManifest(ecus, idClock, createdIso));
    }
  }
}
