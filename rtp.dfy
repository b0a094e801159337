/**
 * The Runtime Package (RTP) namespace: the closed set of asset distributions,
 * the detection result record, detection against a directory tree and the two
 * name-translation lookups over an identity table.
 *
 * The name tables and the probe lists live in an implementation file that is
 * not part of this model, so they are parameters here: a `Table` maps each
 * asset category to its rows, a `Registry` gives each variant its display
 * label and its probe list, and a directory tree is reduced to the question
 * "does this entry exist in this category folder".
 */
module Rtp {
  import opened Wrappers

  /** The ten asset-distribution variants, in declaration order. */
  datatype RtpType =
    | Rpg2000OfficialJapanese
    | Rpg2000OfficialEnglish
    | Rpg2000DonMiguelEnglish
    | Rpg2000DonMigualAddon
    | Rpg2003OfficialJapanese
    | Rpg2003OfficialEnglish
    | Rpg2003RpgAdvocateEnglish
    | Rpg2003VladRussian
    | Rpg2003RpgUniverseSpanishPortuguese
    | Rpg2003Korean
  {
    /** The engine generation the variant was released for, read off its name. */
    function Version(): (v: int)
      ensures v == 2000 || v == 2003
    {
      match this
      case Rpg2000OfficialJapanese | Rpg2000OfficialEnglish
         | Rpg2000DonMiguelEnglish | Rpg2000DonMigualAddon => 2000
      case _ => 2003
    }
  }

  /** Every variant, in declaration order. */
  const AllTypes: seq<RtpType> := [
    Rpg2000OfficialJapanese, Rpg2000OfficialEnglish, Rpg2000DonMiguelEnglish,
    Rpg2000DonMigualAddon, Rpg2003OfficialJapanese, Rpg2003OfficialEnglish,
    Rpg2003RpgAdvocateEnglish, Rpg2003VladRussian,
    Rpg2003RpgUniverseSpanishPortuguese, Rpg2003Korean
  ]

  /** The position of a variant in the declaration: a dense ordinal 0..9. */
  function Ordinal(t: RtpType): nat {
    match t
    case Rpg2000OfficialJapanese => 0
    case Rpg2000OfficialEnglish => 1
    case Rpg2000DonMiguelEnglish => 2
    case Rpg2000DonMigualAddon => 3
    case Rpg2003OfficialJapanese => 4
    case Rpg2003OfficialEnglish => 5
    case Rpg2003RpgAdvocateEnglish => 6
    case Rpg2003VladRussian => 7
    case Rpg2003RpgUniverseSpanishPortuguese => 8
    case Rpg2003Korean => 9
  }

  /** Strictly increasing in declaration order: no variant twice, none out of order. */
  ghost predicate InDeclarationOrder(ts: seq<RtpType>) {
    forall i, j :: 0 <= i < j < |ts| ==> Ordinal(ts[i]) < Ordinal(ts[j])
  }

  /** The declaration lists exactly ten distinct variants and leaves none out. */
  lemma AllTypesEnumerates()
    ensures |AllTypes| == 10
    ensures forall t: RtpType :: Ordinal(t) < 10 && AllTypes[Ordinal(t)] == t
    ensures forall i :: 0 <= i < 10 ==> Ordinal(AllTypes[i]) == i
    ensures InDeclarationOrder(AllTypes)
    ensures forall t: RtpType :: t in AllTypes
    ensures forall t: RtpType :: t.Version() == 2000 || t.Version() == 2003
  {
    assert Ordinal(AllTypes[0]) == 0 && Ordinal(AllTypes[1]) == 1 && Ordinal(AllTypes[2]) == 2;
    assert Ordinal(AllTypes[3]) == 3 && Ordinal(AllTypes[4]) == 4 && Ordinal(AllTypes[5]) == 5;
    assert Ordinal(AllTypes[6]) == 6 && Ordinal(AllTypes[7]) == 7 && Ordinal(AllTypes[8]) == 8;
    assert Ordinal(AllTypes[9]) == 9;
    forall t: RtpType ensures t in AllTypes {
      assert AllTypes[Ordinal(t)] == t;
    }
  }

  /** The first four variants are exactly those of generation 2000, the last six those of 2003. */
  lemma GenerationsSplit()
    ensures forall t: RtpType :: t in AllTypes[..4] <==> t.Version() == 2000
    ensures forall t: RtpType :: t in AllTypes[4..] <==> t.Version() == 2003
  {
    AllTypesEnumerates();
    forall t: RtpType
      ensures (t in AllTypes[..4] <==> t.Version() == 2000) && (t in AllTypes[4..] <==> t.Version() == 2003)
    {
      var n := Ordinal(t);
      if n < 4 { assert AllTypes[..4][n] == t; } else { assert AllTypes[4..][n - 4] == t; }
    }
  }

  /** Every later variant of an ordered sequence comes after its head. */
  lemma InOrderTail(ts: seq<RtpType>)
    requires ts != []
    ensures InDeclarationOrder(ts) ==> forall x :: x in ts[1..] ==> Ordinal(ts[0]) < Ordinal(x)
  {
  }

  /** The version filter of the interface: 0 selects every generation. */
  predicate VersionMatches(version: int, t: RtpType) {
    version == 0 || version == t.Version()
  }

  /** The variants of `ts`, in their order, that satisfy `keep`. */
  function Select(ts: seq<RtpType>, keep: RtpType -> bool): (r: seq<RtpType>)
    ensures forall t :: t in r <==> t in ts && keep(t)
    ensures (forall k :: 0 <= k < |ts| ==> !keep(ts[k])) ==> r == []
    ensures |r| <= |ts|
  {
    if ts == [] then []
    else
      var rest := Select(ts[1..], keep);
      assert forall t :: t in ts[1..] ==> t in ts;
      if keep(ts[0]) then [ts[0]] + rest else rest
  }

  /** A variant placed before an ordered sequence of later variants keeps it ordered. */
  lemma InOrderCons(x: RtpType, rest: seq<RtpType>)
    requires InDeclarationOrder(rest)
    requires forall y :: y in rest ==> Ordinal(x) < Ordinal(y)
    ensures InDeclarationOrder([x] + rest)
  {
    var s := [x] + rest;
    forall i, j | 0 <= i < j < |s| ensures Ordinal(s[i]) < Ordinal(s[j]) {
      assert s[j] == rest[j - 1];
      if i > 0 {
        assert s[i] == rest[i - 1];
      } else {
        assert rest[j - 1] in rest;
      }
    }
  }

  /** Selecting from a sequence in declaration order keeps declaration order. */
  lemma {:induction false} SelectInOrder(ts: seq<RtpType>, keep: RtpType -> bool)
    requires InDeclarationOrder(ts)
    ensures InDeclarationOrder(Select(ts, keep))
  {
    if ts != [] {
      assert InDeclarationOrder(ts[1..]) by {
        forall i, j | 0 <= i < j < |ts[1..]| ensures Ordinal(ts[1..][i]) < Ordinal(ts[1..][j]) {
          assert ts[1..][i] == ts[i + 1] && ts[1..][j] == ts[j + 1];
        }
      }
      SelectInOrder(ts[1..], keep);
      if keep(ts[0]) {
        InOrderTail(ts);
        InOrderCons(ts[0], Select(ts[1..], keep));
      }
    }
  }

  /** The variants a version filter admits, in declaration order. */
  function Candidates(version: int): (r: seq<RtpType>)
    ensures forall t :: t in r <==> VersionMatches(version, t)
    ensures InDeclarationOrder(r)
  {
    AllTypesEnumerates();
    GenerationsSplit();
    if version == 0 then AllTypes
    else if version == 2000 then AllTypes[..4]
    else if version == 2003 then AllTypes[4..]
    else []
  }

  /** Four variants are of generation 2000, six of 2003, ten in all, none of any other. */
  lemma CandidatesCount()
    ensures |Candidates(0)| == 10
    ensures |Candidates(2000)| == 4
    ensures |Candidates(2003)| == 6
    ensures forall v :: v != 0 && v != 2000 && v != 2003 ==> Candidates(v) == []
  {
  }

  // ----- Case-insensitive names ---------------------------------------------

  /** ASCII case folding of one character. */
  function FoldChar(c: char): char {
    if 'A' <= c <= 'Z' then (c as int + 32) as char else c
  }

  /** ASCII case folding of a name. */
  function Fold(s: string): string {
    seq(|s|, i requires 0 <= i < |s| => FoldChar(s[i]))
  }

  /** Two names are the same asset name up to case. */
  predicate SameName(a: string, b: string) {
    Fold(a) == Fold(b)
  }

  /** Names only match when they have the same length and agree letter by letter up to case. */
  lemma SameNameMeans(a: string, b: string)
    ensures SameName(a, b) <==>
      |a| == |b| && forall i :: 0 <= i < |a| ==> FoldChar(a[i]) == FoldChar(b[i])
  {
    if SameName(a, b) {
      assert |Fold(a)| == |a| && |Fold(b)| == |b|;
      forall i | 0 <= i < |a| ensures FoldChar(a[i]) == FoldChar(b[i]) {
        assert Fold(a)[i] == Fold(b)[i];
      }
    }
  }

  // ----- Identity table -----------------------------------------------------

  /** One logical asset: at most one name per variant; a missing key is an empty slot. */
  type Row = map<RtpType, string>

  /** The identity table: for each asset category, its rows. */
  type Table = map<string, seq<Row>>

  /** The rows of one category; an unknown category has none. */
  function Rows(table: Table, category: string): seq<Row> {
    if category in table then table[category] else []
  }

  /** The row names `name` (up to case) in the slot of variant `t`. */
  predicate Holds(row: Row, t: RtpType, name: string) {
    t in row && SameName(row[t], name)
  }

  /**
   * The authoring-data invariant: every stored name is non-empty, and within
   * one category a name appears in at most one row for the same variant.
   */
  ghost predicate WellFormed(table: Table) {
    (forall c, i, t :: c in table && 0 <= i < |table[c]| && t in table[c][i] ==> table[c][i][t] != "") &&
    (forall c, i, j, t :: c in table && 0 <= i < j < |table[c]| && t in table[c][i] && t in table[c][j] ==>
       !SameName(table[c][i][t], table[c][j][t]))
  }

  /** The index of the first row that holds `name` under variant `t`, if any. */
  function FindRow(rows: seq<Row>, t: RtpType, name: string): (r: Option<nat>)
    ensures r.Some? ==>
      && r.value < |rows| && Holds(rows[r.value], t, name)
      && forall j :: 0 <= j < r.value ==> !Holds(rows[j], t, name)
    ensures r.None? ==> forall j :: 0 <= j < |rows| ==> !Holds(rows[j], t, name)
  {
    if rows == [] then None
    else if Holds(rows[0], t, name) then Some(0)
    else match FindRow(rows[1..], t, name)
      case None => None
      case Some(k) => Some(k + 1)
  }

  /** In a well-formed table the row holding a name is unique, so it is the one found. */
  lemma FindRowUnique(table: Table, category: string, i: nat, t: RtpType, name: string)
    requires WellFormed(table)
    requires i < |Rows(table, category)| && Holds(Rows(table, category)[i], t, name)
    ensures FindRow(Rows(table, category), t, name) == Some(i)
  {
  }

  // ----- Translation ----------------------------------------------------------

  /**
   * Translates `name`, as spelled under `src`, to the name the same asset has
   * under `target`; the empty string when the mapping is unavailable.
   */
  function LookupRtpToRtp(table: Table, category: string, name: string, src: RtpType, target: RtpType): (r: string)
    ensures (forall i :: 0 <= i < |Rows(table, category)| ==> !Holds(Rows(table, category)[i], src, name)) ==> r == ""
    ensures r != "" ==> exists i ::
      && 0 <= i < |Rows(table, category)|
      && Holds(Rows(table, category)[i], src, name)
      && target in Rows(table, category)[i]
      && Rows(table, category)[i][target] == r
  {
    var rows := Rows(table, category);
    match FindRow(rows, src, name)
    case None => ""
    case Some(i) => if target in rows[i] then rows[i][target] else ""
  }

  /** Under the invariant, translation reads the target slot of the one row that holds the name. */
  lemma LookupRtpToRtpReadsRow(table: Table, category: string, i: nat, name: string, src: RtpType, target: RtpType)
    requires WellFormed(table)
    requires i < |Rows(table, category)| && Holds(Rows(table, category)[i], src, name)
    ensures var row := Rows(table, category)[i];
      LookupRtpToRtp(table, category, name, src, target) == if target in row then row[target] else ""
  {
    FindRowUnique(table, category, i, src, name);
  }

  /** A known name whose row has no slot for the target translates to the empty string. */
  lemma LookupRtpToRtpNoTarget(table: Table, category: string, i: nat, name: string, src: RtpType, target: RtpType)
    requires WellFormed(table)
    requires i < |Rows(table, category)| && Holds(Rows(table, category)[i], src, name)
    requires target !in Rows(table, category)[i]
    ensures LookupRtpToRtp(table, category, name, src, target) == ""
  {
    LookupRtpToRtpReadsRow(table, category, i, name, src, target);
  }

  /** Round trip: the A name of a row goes to its B name and back to its A name. */
  lemma LookupRtpToRtpRoundTrip(table: Table, category: string, i: nat, a: RtpType, b: RtpType)
    requires WellFormed(table)
    requires i < |Rows(table, category)|
    requires a in Rows(table, category)[i] && b in Rows(table, category)[i]
    ensures var row := Rows(table, category)[i];
      LookupRtpToRtp(table, category, row[a], a, b) == row[b] &&
      LookupRtpToRtp(table, category, row[b], b, a) == row[a]
  {
    var row := Rows(table, category)[i];
    FindRowUnique(table, category, i, a, row[a]);
    FindRowUnique(table, category, i, b, row[b]);
  }

  /** Translating to B and back to A gives the name again, up to case. */
  lemma LookupRtpToRtpThereAndBack(table: Table, category: string, name: string, a: RtpType, b: RtpType)
    requires WellFormed(table)
    requires LookupRtpToRtp(table, category, name, a, b) != ""
    ensures var back := LookupRtpToRtp(table, category, LookupRtpToRtp(table, category, name, a, b), b, a);
      back != "" && SameName(back, name)
  {
    var i := FindRow(Rows(table, category), a, name).value;
    LookupRtpToRtpRoundTrip(table, category, i, a, b);
  }

  /** Translating to the same variant yields the row's own spelling: non-empty and equal up to case. */
  lemma LookupRtpToRtpSameType(table: Table, category: string, name: string, t: RtpType)
    requires WellFormed(table)
    requires exists i :: 0 <= i < |Rows(table, category)| && Holds(Rows(table, category)[i], t, name)
    ensures var r := LookupRtpToRtp(table, category, name, t, t);
      r != "" && SameName(r, name)
  {
    var i := FindRow(Rows(table, category), t, name).value;
  }

  /** Every variant, within the version filter, whose row in `category` holds `name`. */
  function LookupAnyToRtp(table: Table, category: string, name: string, version: int): (r: seq<RtpType>)
    ensures forall t :: t in r <==>
      VersionMatches(version, t) &&
      exists i :: 0 <= i < |Rows(table, category)| && Holds(Rows(table, category)[i], t, name)
    ensures InDeclarationOrder(r)
  {
    var rows := Rows(table, category);
    SelectInOrder(Candidates(version), t => FindRow(rows, t, name).Some?);
    Select(Candidates(version), t => FindRow(rows, t, name).Some?)
  }

  /** A name no row holds, under any variant, has no possible RTP. */
  lemma LookupAnyToRtpUnknown(table: Table, category: string, name: string, version: int)
    requires forall i, t :: 0 <= i < |Rows(table, category)| ==> !Holds(Rows(table, category)[i], t, name)
    ensures LookupAnyToRtp(table, category, name, version) == []
  {
  }

  /** The reverse lookup lists exactly the variants under which the name translates to itself. */
  lemma LookupAnyToRtpAgrees(table: Table, category: string, name: string, version: int, t: RtpType)
    requires WellFormed(table)
    ensures t in LookupAnyToRtp(table, category, name, version) <==>
      VersionMatches(version, t) && LookupRtpToRtp(table, category, name, t, t) != ""
  {
    if FindRow(Rows(table, category), t, name).Some? {
      LookupRtpToRtpSameType(table, category, name, t);
    }
  }

  // ----- Detection ------------------------------------------------------------

  /** One detection probe: an entry name inside a category folder. */
  datatype Probe = Probe(category: string, name: string)

  /** The per-variant registry data that the implementation file compiles in. */
  datatype Registry = Registry(displayName: RtpType -> string, probes: RtpType -> seq<Probe>)

  /** The score of one variant; the directory tree it was scored against is not modelled. */
  datatype RtpHitInfo = RtpHitInfo(rtpId: RtpType, name: string, version: int, hits: int, max: int)

  /** The number of probes the tree holds. */
  function CountHits(present: (string, string) -> bool, probes: seq<Probe>): (hits: nat)
    ensures hits <= |probes|
  {
    if probes == [] then 0
    else (if present(probes[0].category, probes[0].name) then 1 else 0) + CountHits(present, probes[1..])
  }

  /** Every probe is found exactly when the hit count reaches the number of probes. */
  lemma {:induction false} CountHitsAll(present: (string, string) -> bool, probes: seq<Probe>)
    ensures CountHits(present, probes) == |probes| <==>
      forall k :: 0 <= k < |probes| ==> present(probes[k].category, probes[k].name)
  {
    if probes != [] {
      CountHitsAll(present, probes[1..]);
      assert forall k :: 1 <= k < |probes| ==> probes[k] == probes[1..][k - 1];
    }
  }

  /** No probe is found exactly when the hit count is zero. */
  lemma {:induction false} CountHitsNone(present: (string, string) -> bool, probes: seq<Probe>)
    ensures CountHits(present, probes) == 0 <==>
      forall k :: 0 <= k < |probes| ==> !present(probes[k].category, probes[k].name)
  {
    if probes != [] {
      CountHitsNone(present, probes[1..]);
      assert forall k :: 1 <= k < |probes| ==> probes[k] == probes[1..][k - 1];
    }
  }

  /** The score of one variant against the tree. */
  function Score(registry: Registry, present: (string, string) -> bool, t: RtpType): (info: RtpHitInfo)
    ensures info.rtpId == t && info.version == t.Version() && info.name == registry.displayName(t)
    ensures info.max == |registry.probes(t)| && 0 <= info.hits <= info.max
  {
    RtpHitInfo(t, registry.displayName(t), t.Version(), CountHits(present, registry.probes(t)), |registry.probes(t)|)
  }

  /**
   * Scores every variant the version filter admits against the tree, in
   * declaration order; whether a variant counts as installed is left to the caller.
   */
  function Detect(registry: Registry, present: (string, string) -> bool, version: int): (r: seq<RtpHitInfo>)
    ensures |r| == |Candidates(version)|
    ensures forall k :: 0 <= k < |r| ==> r[k].rtpId == Candidates(version)[k]
    ensures forall k :: 0 <= k < |r| ==>
      && r[k].version == r[k].rtpId.Version()
      && r[k].name == registry.displayName(r[k].rtpId)
      && r[k].max == |registry.probes(r[k].rtpId)|
      && r[k].hits == CountHits(present, registry.probes(r[k].rtpId))
      && 0 <= r[k].hits <= r[k].max
  {
    var ts := Candidates(version);
    seq(|ts|, k requires 0 <= k < |ts| => Score(registry, present, ts[k]))
  }

  /** Detection scores exactly the variants the version admits, each once and in declaration order. */
  lemma DetectCoverage(registry: Registry, present: (string, string) -> bool, version: int)
    ensures var r := Detect(registry, present, version);
      && (forall t :: (exists k :: 0 <= k < |r| && r[k].rtpId == t) <==> VersionMatches(version, t))
      && (forall i, j :: 0 <= i < j < |r| ==> Ordinal(r[i].rtpId) < Ordinal(r[j].rtpId))
  {
    var r := Detect(registry, present, version);
    var ts := Candidates(version);
    forall t ensures (exists k :: 0 <= k < |r| && r[k].rtpId == t) <==> t in ts {
      if t in ts {
        var k :| 0 <= k < |ts| && ts[k] == t;
        assert r[k].rtpId == t;
      } else {
        assert forall k :: 0 <= k < |r| ==> r[k].rtpId == ts[k] && ts[k] in ts;
      }
    }
  }

  /** Version 0 scores all ten variants; 2000 and 2003 score four and six, each entry of the requested generation. */
  lemma DetectCount(registry: Registry, present: (string, string) -> bool, version: int)
    ensures var r := Detect(registry, present, version);
      && (version == 0 ==> |r| == 10)
      && (version == 2000 ==> |r| == 4)
      && (version == 2003 ==> |r| == 6)
      && (version != 0 ==> forall k :: 0 <= k < |r| ==> r[k].version == version)
  {
    var r := Detect(registry, present, version);
    var ts := Candidates(version);
    CandidatesCount();
    forall k | 0 <= k < |r| ensures VersionMatches(version, r[k].rtpId) {
      assert r[k].rtpId == ts[k] && ts[k] in ts;
    }
  }

  /** A variant scores full marks exactly when the tree holds every one of its probes, and zero exactly when it holds none. */
  lemma DetectFullAndEmptyScores(registry: Registry, present: (string, string) -> bool, version: int, k: nat)
    requires k < |Detect(registry, present, version)|
    ensures var info := Detect(registry, present, version)[k];
      var probes := registry.probes(info.rtpId);
      && (info.hits == info.max <==> forall p :: 0 <= p < |probes| ==> present(probes[p].category, probes[p].name))
      && (info.hits == 0 <==> forall p :: 0 <= p < |probes| ==> !present(probes[p].category, probes[p].name))
  {
    var info := Detect(registry, present, version)[k];
    CountHitsAll(present, registry.probes(info.rtpId));
    CountHitsNone(present, registry.probes(info.rtpId));
  }
}
