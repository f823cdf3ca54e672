/**
 * The viewer's model: the ordered list of image names, the selected image
 * and the data extracted from it (info record, decoded tags, geo data).
 *
 * Opening an image is modelled by `disk`, a fixed function from a name to
 * what the image library would read from that file; the two code-to-name
 * tables are fixed configuration as well.
 */
module Model {
  import opened Wrappers
  import opened Metadata
  import opened Lists

  type Disk = string -> ImageFile

  class ExifModel {
    const tagNames: NameTable
    const gpsNames: NameTable
    const disk: Disk

    var currentImage: Option<string>
    var currentInfo: map<string, Value>
    var currentExif: TagMap
    var currentGeo: Option<TagMap>
    var imagesList: seq<string>

    /** Reading the image's tags never meets a GPS block that is not a table. */
    predicate Readable(name: string)
    {
      var f := disk(name);
      GpsPayloadsAreTables(tagNames, f.tags[..Processed(f)])
    }

    /** The info record extraction leaves for a selection. */
    function InfoOf(name: Option<string>): map<string, Value>
    {
      if name.None? then map[] else InfoRecord(disk(name.value))
    }

    /** The decoded tags extraction leaves for a selection, up to any decoding failure. */
    function ExifOf(name: Option<string>): TagMap
    {
      if name.None? then map[]
      else
        var f := disk(name.value);
        ExifTable(tagNames, f.tags[..Processed(f)])
    }

    /** The geo data extraction leaves for a selection, up to any decoding failure. */
    function GeoOf(name: Option<string>): Option<TagMap>
      requires name.Some? ==> Readable(name.value)
    {
      if name.None? then None
      else
        var f := disk(name.value);
        GeoTable(tagNames, gpsNames, f.tags[..Processed(f)])
    }

    /** The extracted data is that of the current selection. */
    ghost predicate Synced()
      reads this
    {
      && (currentImage.Some? ==> Readable(currentImage.value))
      && currentInfo == InfoOf(currentImage)
      && currentExif == ExifOf(currentImage)
      && currentGeo == GeoOf(currentImage)
    }

    constructor (tagNames: NameTable, gpsNames: NameTable, disk: Disk)
      ensures this.tagNames == tagNames && this.gpsNames == gpsNames && this.disk == disk
      ensures currentImage == None && currentInfo == map[] && currentExif == map[]
      ensures currentGeo == None && imagesList == []
      ensures Synced()
    {
      this.tagNames := tagNames;
      this.gpsNames := gpsNames;
      this.disk := disk;
      currentImage := None;
      currentInfo := map[];
      currentExif := map[];
      currentGeo := None;
      imagesList := [];
    }

    /** Appends a name at the end; no check for duplicates. */
    method AddImage(imageName: string)
      modifies this`imagesList
      ensures imagesList == old(imagesList) + [imageName]
      ensures old(Synced()) ==> Synced()
    {
      imagesList := imagesList + [imageName];
    }

    /** Deletes the first occurrence of a name; the list must hold it. */
    method RemoveImage(imageName: string)
      requires imageName in imagesList
      modifies this`imagesList
      ensures imagesList == RemoveFirst(old(imagesList), imageName)
      ensures multiset(imagesList) == multiset(old(imagesList)) - multiset{imageName}
      ensures old(Synced()) ==> Synced()
    {
      RemoveFirstMultiset(imagesList, imageName);
      imagesList := RemoveFirst(imagesList, imageName);
    }

    /** Clears the list; the selection is left as it is. */
    method EmptyList()
      modifies this`imagesList
      ensures imagesList == []
      ensures old(Synced()) ==> Synced()
    {
      imagesList := [];
    }

    /**
     * Selects a listed image, or deselects with None, and extracts its data;
     * any other name is ignored and nothing changes.
     */
    method SelectImage(imageName: Option<string>)
      requires imageName.Some? && imageName.value in imagesList ==> Readable(imageName.value)
      modifies this`currentImage, this`currentInfo, this`currentExif, this`currentGeo
      ensures imageName.None? || imageName.value in imagesList ==>
        && currentImage == imageName
        && currentInfo == InfoOf(imageName)
        && currentExif == ExifOf(imageName)
        && currentGeo == GeoOf(imageName)
        && Synced()
      ensures imageName.Some? && imageName.value !in imagesList ==>
        && currentImage == old(currentImage)
        && currentInfo == old(currentInfo)
        && currentExif == old(currentExif)
        && currentGeo == old(currentGeo)
      ensures old(Synced()) ==> Synced()
    {
      if (imageName.Some? && CheckImage(imageName.value)) || imageName.None? {
        currentImage := imageName;
        ExtractCurrentData();
      }
    }

    /** Whether a name is in the list. */
    function CheckImage(imageName: string): (present: bool)
      reads this
      ensures present <==> imageName in imagesList
    {
      imageName in imagesList
    }

    /** The name at a position of the list. */
    function GetImageByIdx(index: nat): (name: string)
      reads this
      requires index < |imagesList|
      ensures name == imagesList[index]
      ensures name in imagesList
      ensures NoDuplicates(imagesList) ==> IndexOf(imagesList, name) == index
    {
      var name := imagesList[index];
      assert NoDuplicates(imagesList) ==> IndexOf(imagesList, name) == index by {
        if NoDuplicates(imagesList) {
          var k := IndexOf(imagesList, name);
          assert forall j :: 0 <= j < k ==> imagesList[..k][j] == imagesList[j];
        }
      }
      name
    }

    /** The whole list, in order. */
    function GetAllImages(): (images: seq<string>)
      reads this
      ensures images == imagesList
    {
      imagesList
    }

    /** Recomputes the info record, the decoded tags and the geo data of the selection. */
    method ExtractCurrentData()
      requires currentImage.Some? ==> Readable(currentImage.value)
      modifies this`currentInfo, this`currentExif, this`currentGeo
      ensures currentInfo == InfoOf(currentImage)
      ensures currentExif == ExifOf(currentImage)
      ensures currentGeo == GeoOf(currentImage)
      ensures Synced()
    {
      ExtractCurrentInfo();
      ExtractCurrentExif();
    }

    /** The info record: empty without a selection, otherwise the five file facts. */
    method ExtractCurrentInfo()
      modifies this`currentInfo
      ensures currentInfo == InfoOf(currentImage)
      ensures currentImage.None? <==> currentInfo == map[]
      ensures currentImage.Some? <==> currentInfo.Keys == INFO_KEYS
    {
      currentInfo := map[];
      if currentImage.Some? {
        var f := disk(currentImage.value);
        currentInfo := currentInfo["Name file" := Text(f.baseName)];
        currentInfo := currentInfo["Extension" := Text(f.format)];
        currentInfo := currentInfo["Image size" := Tuple([Number(f.width as real), Number(f.height as real)])];
        currentInfo := currentInfo["Creation date" := Text(f.created)];
        currentInfo := currentInfo["Modification date" := Text(f.modified)];
      }
    }

    /**
     * Walks the selected image's tags in order, resolving each key and
     * diverting the GPS block; a decoding failure stops the walk and keeps
     * what was accumulated.
     */
    method ExtractCurrentExif()
      requires currentImage.Some? ==> Readable(currentImage.value)
      modifies this`currentExif, this`currentGeo
      ensures currentExif == ExifOf(currentImage)
      ensures currentGeo == GeoOf(currentImage)
    {
      currentExif := map[];
      currentGeo := None;
      if currentImage.Some? {
        var f := disk(currentImage.value);
        ghost var done := f.tags[..Processed(f)];
        var i := 0;
        while i < |f.tags| && f.failAt != Some(i)
          invariant i <= Processed(f)
          invariant f.tags[..i] == done[..i]
          invariant currentExif == ExifTable(tagNames, f.tags[..i])
          invariant currentGeo == GeoTable(tagNames, gpsNames, done[..i])
        {
          var (tag, value) := f.tags[i];
          var decoded := DecodeKey(tagNames, tag);
          assert f.tags[..i + 1][..i] == f.tags[..i];
          assert done[..i + 1][..i] == done[..i];
          assert done[i] == f.tags[i];
          if decoded == GPS_INFO {
            var gpsData := DecodeGpsInfo(value);
            currentGeo := Some(gpsData);
          } else {
            currentExif := currentExif[decoded := value];
          }
          i := i + 1;
        }
        assert done[..i] == done;
      }
    }

    /** Resolves every sub-key of a GPS block, later entries overwriting earlier ones. */
    method DecodeGpsInfo(value: Value) returns (gpsData: TagMap)
      requires value.Table?
      ensures gpsData == GpsTable(gpsNames, value.entries)
    {
      gpsData := map[];
      var entries := value.entries;
      for i := 0 to |entries|
        invariant gpsData == GpsTable(gpsNames, entries[..i])
      {
        var (v, subValue) := entries[i];
        assert entries[..i + 1][..i] == entries[..i];
        gpsData := gpsData[DecodeKey(gpsNames, v) := subValue];
      }
      assert entries[..|entries|] == entries;
    }

    /** The info record, or None when no image (or an empty name) is selected. */
    function GetCurrentInfo(): (info: Option<map<string, Value>>)
      reads this
      ensures info.Some? <==> currentImage.Some? && currentImage.value != ""
      ensures info.Some? ==> info.value == currentInfo
    {
      if currentImage.Some? && currentImage.value != "" then Some(currentInfo) else None
    }

    /** The decoded tags, or None when no image (or an empty name) is selected. */
    function GetCurrentExif(): (exif: Option<TagMap>)
      reads this
      ensures exif.Some? <==> currentImage.Some? && currentImage.value != ""
      ensures exif.Some? ==> exif.value == currentExif
    {
      if currentImage.Some? && currentImage.value != "" then Some(currentExif) else None
    }

    /** The geo data, whatever the selection. */
    function GetCurrentGeo(): (geo: Option<TagMap>)
      reads this
      ensures geo == currentGeo
    {
      currentGeo
    }

    /** The selection. */
    function GetCurrentImage(): (image: Option<string>)
      reads this
      ensures image == currentImage
    {
      currentImage
    }
  }

  /** With no selection the extracted data is reset and the getters report nothing. */
  lemma DeselectedIsEmpty(m: ExifModel)
    requires m.Synced() && m.currentImage.None?
    ensures m.currentInfo == map[] && m.currentExif == map[] && m.currentGeo == None
    ensures m.GetCurrentInfo() == None && m.GetCurrentExif() == None && m.GetCurrentGeo() == None
  {
  }

  /** An image is selected exactly when the info record holds the five file facts. */
  lemma SelectedIffInfo(m: ExifModel)
    requires m.Synced()
    ensures m.currentImage.Some? <==> m.currentInfo.Keys == INFO_KEYS
    ensures m.currentImage.None? <==> m.currentInfo == map[]
  {
  }
}
