/**
 * The tag-decoding rules of the EXIF viewer's model, as specification
 * functions over an abstract tag source.
 *
 * An image's raw tags arrive as a sequence of (key, value) pairs in
 * dictionary-iteration order. Each key is resolved through a code-to-name
 * table; a key with no entry is kept as it is. The entry that resolves to
 * "GPSInfo" does not become an ordinary tag: its value is itself a table,
 * whose keys are resolved through a second, GPS-specific table, and the
 * result is the image's geo data.
 */
module Metadata {
  import opened Wrappers

  /** A raw or decoded tag key: a numeric EXIF code, or a name. */
  datatype Key = Code(code: int) | Name(name: string)

  /** A tag value as the image library exposes it. */
  datatype Value =
    | Number(x: real)                  // an integer or rational
    | Text(s: string)                  // a string or byte payload
    | Tuple(items: seq<Value>)         // e.g. a (degrees, minutes, seconds) triple
    | Table(entries: seq<(Key, Value)>) // a nested tag table such as the GPS block

  type Tag = (Key, Value)

  /** Code-to-name tables (the library's TAGS and GPSTAGS). */
  type NameTable = map<Key, string>

  /** A decoded tag mapping, from resolved name to value. */
  type TagMap = map<Key, Value>

  /** The decoded name of the GPS block. */
  const GPS_INFO: Key := Name("GPSInfo")

  /** The five entries of the file-info record of a selected image. */
  const INFO_KEYS: set<string> :=
    {"Name file", "Extension", "Image size", "Creation date", "Modification date"}

  /**
   * What opening an image yields: the file facts behind the info record and
   * the raw tag source. `failAt`, when present, is the position of the tag
   * at which a text-decoding failure is raised while the tags are read.
   */
  datatype ImageFile = ImageFile(
    baseName: string,
    format: string,
    width: int,
    height: int,
    created: string,
    modified: string,
    tags: seq<Tag>,
    failAt: Option<nat>)

  /** `table.get(key, key)`: the table's name for the key, or the key itself. */
  function DecodeKey(names: NameTable, k: Key): (d: Key)
    ensures k in names ==> d == Name(names[k])
    ensures k !in names ==> d == k
  {
    if k in names then Name(names[k]) else k
  }

  /** The info record of a selected image. */
  function InfoRecord(f: ImageFile): (info: map<string, Value>)
    ensures info.Keys == INFO_KEYS
  {
    map[
      "Name file" := Text(f.baseName),
      "Extension" := Text(f.format),
      "Image size" := Tuple([Number(f.width as real), Number(f.height as real)]),
      "Creation date" := Text(f.created),
      "Modification date" := Text(f.modified)]
  }

  /** How many tags are read before a decoding failure (all of them when none occurs). */
  function Processed(f: ImageFile): (n: nat)
    ensures n <= |f.tags|
    ensures f.failAt.Some? && f.failAt.value < |f.tags| ==> n == f.failAt.value
    ensures !(f.failAt.Some? && f.failAt.value < |f.tags|) ==> n == |f.tags|
  {
    if f.failAt.Some? && f.failAt.value < |f.tags| then f.failAt.value else |f.tags|
  }

  /** The decoded GPS block: every sub-key resolved, later entries overwriting earlier ones. */
  function GpsTable(gpsNames: NameTable, entries: seq<Tag>): (gps: TagMap)
    ensures |gps| <= |entries|
    decreases |entries|
  {
    if entries == [] then map[]
    else
      var n := |entries| - 1;
      GpsTable(gpsNames, entries[..n])[DecodeKey(gpsNames, entries[n].0) := entries[n].1]
  }

  /** Every tag whose key resolves to "GPSInfo" carries a nested table. */
  predicate GpsPayloadsAreTables(tagNames: NameTable, tags: seq<Tag>)
  {
    forall i :: 0 <= i < |tags| && DecodeKey(tagNames, tags[i].0) == GPS_INFO ==> tags[i].1.Table?
  }

  /** The decoded tag mapping: all tags but the GPS block, later entries overwriting earlier ones. */
  function ExifTable(tagNames: NameTable, tags: seq<Tag>): (exif: TagMap)
    ensures GPS_INFO !in exif
    ensures |exif| <= |tags|
    decreases |tags|
  {
    if tags == [] then map[]
    else
      var n := |tags| - 1;
      var d := DecodeKey(tagNames, tags[n].0);
      var prev := ExifTable(tagNames, tags[..n]);
      if d == GPS_INFO then prev else prev[d := tags[n].1]
  }

  /** The geo data: the decoded table of the last GPS block, or None when there is none. */
  function GeoTable(tagNames: NameTable, gpsNames: NameTable, tags: seq<Tag>): (geo: Option<TagMap>)
    requires GpsPayloadsAreTables(tagNames, tags)
    ensures geo.Some? ==> (exists i :: 0 <= i < |tags| && DecodeKey(tagNames, tags[i].0) == GPS_INFO &&
                                      geo.value == GpsTable(gpsNames, tags[i].1.entries))
    decreases |tags|
  {
    if tags == [] then None
    else
      var n := |tags| - 1;
      if DecodeKey(tagNames, tags[n].0) == GPS_INFO then Some(GpsTable(gpsNames, tags[n].1.entries))
      else GeoTable(tagNames, gpsNames, tags[..n])
  }

  /** The decoded GPS block holds exactly the resolved sub-keys. */
  lemma {:induction false} GpsTableKeys(gpsNames: NameTable, entries: seq<Tag>)
    ensures forall x :: x in GpsTable(gpsNames, entries) <==>
      exists i :: 0 <= i < |entries| && DecodeKey(gpsNames, entries[i].0) == x
    decreases |entries|
  {
    if entries != [] {
      var n := |entries| - 1;
      var init := entries[..n];
      GpsTableKeys(gpsNames, init);
      forall x
        ensures x in GpsTable(gpsNames, entries) <==>
          exists i :: 0 <= i < |entries| && DecodeKey(gpsNames, entries[i].0) == x
      {
        if x in GpsTable(gpsNames, init) {
          var i :| 0 <= i < |init| && DecodeKey(gpsNames, init[i].0) == x;
          assert entries[i] == init[i];
        }
        if exists i :: 0 <= i < |entries| && DecodeKey(gpsNames, entries[i].0) == x {
          var i :| 0 <= i < |entries| && DecodeKey(gpsNames, entries[i].0) == x;
          if i < n {
            assert init[i] == entries[i];
          }
        }
      }
    }
  }

  /** A sub-key resolved from entry `i` and from no later entry keeps entry `i`'s value. */
  lemma {:induction false} GpsTableLastWins(gpsNames: NameTable, entries: seq<Tag>, i: nat)
    requires i < |entries|
    requires forall j :: i < j < |entries| ==>
      DecodeKey(gpsNames, entries[j].0) != DecodeKey(gpsNames, entries[i].0)
    ensures DecodeKey(gpsNames, entries[i].0) in GpsTable(gpsNames, entries)
    ensures GpsTable(gpsNames, entries)[DecodeKey(gpsNames, entries[i].0)] == entries[i].1
    decreases |entries|
  {
    var n := |entries| - 1;
    if i < n {
      var init := entries[..n];
      assert init[i] == entries[i];
      forall j | i < j < |init|
        ensures DecodeKey(gpsNames, init[j].0) != DecodeKey(gpsNames, init[i].0)
      {
        assert init[j] == entries[j];
      }
      GpsTableLastWins(gpsNames, init, i);
    }
  }

  /** The decoded tag mapping holds exactly the resolved keys of the tags, never "GPSInfo". */
  lemma {:induction false} ExifTableKeys(tagNames: NameTable, tags: seq<Tag>)
    ensures GPS_INFO !in ExifTable(tagNames, tags)
    ensures forall x :: x in ExifTable(tagNames, tags) <==>
      x != GPS_INFO && exists i :: 0 <= i < |tags| && DecodeKey(tagNames, tags[i].0) == x
    decreases |tags|
  {
    if tags != [] {
      var n := |tags| - 1;
      var init := tags[..n];
      ExifTableKeys(tagNames, init);
      forall x
        ensures x in ExifTable(tagNames, tags) <==>
          x != GPS_INFO && exists i :: 0 <= i < |tags| && DecodeKey(tagNames, tags[i].0) == x
      {
        if x in ExifTable(tagNames, init) {
          var i :| 0 <= i < |init| && DecodeKey(tagNames, init[i].0) == x;
          assert tags[i] == init[i];
        }
        if x != GPS_INFO && exists i :: 0 <= i < |tags| && DecodeKey(tagNames, tags[i].0) == x {
          var i :| 0 <= i < |tags| && DecodeKey(tagNames, tags[i].0) == x;
          if i < n {
            assert init[i] == tags[i];
          }
        }
      }
    }
  }

  /** A tag whose resolved name no later tag shares keeps its value in the decoded mapping. */
  lemma {:induction false} ExifTableLastWins(tagNames: NameTable, tags: seq<Tag>, i: nat)
    requires i < |tags|
    requires DecodeKey(tagNames, tags[i].0) != GPS_INFO
    requires forall j :: i < j < |tags| ==>
      DecodeKey(tagNames, tags[j].0) != DecodeKey(tagNames, tags[i].0)
    ensures DecodeKey(tagNames, tags[i].0) in ExifTable(tagNames, tags)
    ensures ExifTable(tagNames, tags)[DecodeKey(tagNames, tags[i].0)] == tags[i].1
    decreases |tags|
  {
    var n := |tags| - 1;
    if i < n {
      var init := tags[..n];
      assert init[i] == tags[i];
      forall j | i < j < |init|
        ensures DecodeKey(tagNames, init[j].0) != DecodeKey(tagNames, init[i].0)
      {
        assert init[j] == tags[j];
      }
      ExifTableLastWins(tagNames, init, i);
    }
  }

  /** A raw key with no table entry (other than "GPSInfo" itself) appears under that raw key. */
  lemma UnknownKeyKept(tagNames: NameTable, tags: seq<Tag>, i: nat)
    requires i < |tags|
    requires tags[i].0 !in tagNames && tags[i].0 != GPS_INFO
    ensures tags[i].0 in ExifTable(tagNames, tags)
  {
    ExifTableKeys(tagNames, tags);
    assert DecodeKey(tagNames, tags[i].0) == tags[i].0;
  }

  /** What a partial read accumulates is a part of what the full read yields: no key is lost. */
  lemma PartialExifKeysIncluded(tagNames: NameTable, tags: seq<Tag>, k: nat)
    requires k <= |tags|
    ensures ExifTable(tagNames, tags[..k]).Keys <= ExifTable(tagNames, tags).Keys
  {
    ExifTableKeys(tagNames, tags[..k]);
    ExifTableKeys(tagNames, tags);
    forall x | x in ExifTable(tagNames, tags[..k])
      ensures x in ExifTable(tagNames, tags)
    {
      var i :| 0 <= i < k && DecodeKey(tagNames, tags[..k][i].0) == x;
      assert tags[..k][i] == tags[i];
    }
  }

  /** There is geo data exactly when some tag resolves to "GPSInfo". */
  lemma {:induction false} GeoTableAbsent(tagNames: NameTable, gpsNames: NameTable, tags: seq<Tag>)
    requires GpsPayloadsAreTables(tagNames, tags)
    ensures GeoTable(tagNames, gpsNames, tags).None? <==>
      forall i :: 0 <= i < |tags| ==> DecodeKey(tagNames, tags[i].0) != GPS_INFO
    decreases |tags|
  {
    if tags != [] {
      var n := |tags| - 1;
      var init := tags[..n];
      assert forall i :: 0 <= i < n ==> init[i] == tags[i];
      GeoTableAbsent(tagNames, gpsNames, init);
    }
  }

  /** The geo data is the decoded table of the last GPS block. */
  lemma {:induction false} GeoTableLast(tagNames: NameTable, gpsNames: NameTable, tags: seq<Tag>, i: nat)
    requires GpsPayloadsAreTables(tagNames, tags)
    requires i < |tags| && DecodeKey(tagNames, tags[i].0) == GPS_INFO
    requires forall j :: i < j < |tags| ==> DecodeKey(tagNames, tags[j].0) != GPS_INFO
    ensures GeoTable(tagNames, gpsNames, tags) == Some(GpsTable(gpsNames, tags[i].1.entries))
    decreases |tags|
  {
    var n := |tags| - 1;
    if i < n {
      var init := tags[..n];
      assert forall j :: 0 <= j < n ==> init[j] == tags[j];
      GeoTableLast(tagNames, gpsNames, init, i);
    }
  }
}
