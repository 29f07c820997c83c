/**
 * The zone list both gn-math scripts read (zones.json) and the catalog lookup
 * sets both build with `load_existing_games`.
 */
module Zones {
  import opened Wrappers
  import opened Text
  import opened Catalog

  /**
   * One value of zones.json: a record whose text fields read "" when absent,
   * null or empty (all falsy), or any other JSON value, given by its `str()`
   * text and its truthiness.
   */
  datatype ZoneData = ZoneRecord(name: string, title: string, zone: string) | ZoneValue(text: string, truthy: bool)

  datatype Zone = Zone(id: string, data: ZoneData)

  /** zones.json as fetched: an object (its items in order), an array, or anything else. */
  datatype Payload = ZoneObject(zones: seq<Zone>) | ZoneArray(items: seq<ZoneData>) | OtherJson

  /** The zones in iteration order; an array becomes the map `{str(i): item}`. */
  function ZonesOf(p: Payload): Option<seq<Zone>> {
    match p
    case ZoneObject(zs) => Some(zs)
    case ZoneArray(items) => Some(seq(|items|, i requires 0 <= i < |items| => Zone(NatToString(i), items[i])))
    case OtherJson => None
  }

  lemma NatToStringNonEmpty(n: nat)
    ensures |NatToString(n)| >= 1
    ensures n >= 10 ==> |NatToString(n)| >= 2
  {
    if n >= 10 {
      NatToStringNonEmpty(n / 10);
    }
  }

  lemma {:induction false} NatToStringInjective(n: nat, m: nat)
    requires NatToString(n) == NatToString(m)
    ensures n == m
  {
    NatToStringNonEmpty(n);
    NatToStringNonEmpty(m);
    if n >= 10 && m >= 10 {
      var s := NatToString(n);
      assert s[..|s| - 1] == NatToString(n / 10);
      assert s[..|s| - 1] == NatToString(m / 10);
      NatToStringInjective(n / 10, m / 10);
      assert DigitChar(n % 10) == s[|s| - 1] == DigitChar(m % 10);
    } else if n < 10 && m < 10 {
      assert DigitChar(n) == DigitChar(m);
    }
  }

  /** An array payload yields one zone per item, keyed by its index as text: keys in index order and pairwise distinct. */
  lemma ArrayPayloadZones(items: seq<ZoneData>)
    ensures ZonesOf(ZoneArray(items)).Some?
    ensures var zs := ZonesOf(ZoneArray(items)).value;
      && |zs| == |items|
      && (forall i :: 0 <= i < |zs| ==> zs[i].id == NatToString(i) && zs[i].data == items[i])
      && (forall i, j :: 0 <= i < j < |zs| ==> zs[i].id != zs[j].id)
  {
    var zs := ZonesOf(ZoneArray(items)).value;
    forall i, j | 0 <= i < j < |zs| ensures zs[i].id != zs[j].id {
      if zs[i].id == zs[j].id {
        NatToStringInjective(i, j);
      }
    }
  }

  /** The lookup sets of the gn-math scripts: directories as written, names lower-cased. */
  datatype Known = Known(dirs: set<string>, names: set<string>)

  /** `g.get(key, '')` for a text field; `None` stands for a JSON null. */
  function TextOr(f: Field): Option<string> {
    match f
    case Missing => Some("")
    case Null => None
    case Str(s) => Some(s)
  }

  /**
   * `load_existing_games`: a missing file gives two empty sets; an unparsable
   * file, or a null name (`None.lower()`), aborts the run.
   */
  function LoadExisting(file: JsonFile<seq<Entry>>): (r: Result<Known>)
    ensures file.Absent? ==> r == Ok(Known({}, {}))
    ensures file.Parsed? && r.Ok? ==>
      && (forall d :: d in r.value.dirs <==> exists g :: g in file.contents && TextOr(g.directory) == Some(d))
      && (forall n :: n in r.value.names <==> exists g :: g in file.contents && Some(n) == LowerOf(TextOr(g.name)))
    ensures file.Parsed? ==> (r.Ok? <==> forall g :: g in file.contents ==> g.name != Null)
    ensures file.Unparsable? ==> r.Crash?
  {
    match file
    case Absent => Ok(Known({}, {}))
    case Unparsable => Crash("games.json is not valid JSON")
    case Parsed(games) =>
      if exists g :: g in games && g.name == Null then Crash("null name")
      else
        Ok(Known(
          set g | g in games && TextOr(g.directory).Some? :: TextOr(g.directory).value,
          set g | g in games && TextOr(g.name).Some? :: Lower(TextOr(g.name).value)))
  }

  function LowerOf(t: Option<string>): Option<string> {
    match t
    case None => None
    case Some(s) => Some(Lower(s))
  }
}
