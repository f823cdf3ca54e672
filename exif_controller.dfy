/**
 * The viewer's controller: the list rules layered on top of the model.
 * It keeps the list free of duplicates and the selection either empty or
 * one of the listed images, and keys selection and removal by position.
 */
module Controller {
  import opened Wrappers
  import opened Metadata
  import opened Lists
  import opened Model

  class ExifController {
    const model: ExifModel

    /** No duplicates, the selection is None or listed, and its data is current. */
    ghost predicate Valid()
      reads this, model
    {
      && model.Synced()
      && NoDuplicates(model.imagesList)
      && (model.currentImage.Some? ==> model.currentImage.value in model.imagesList)
    }

    constructor (model: ExifModel)
      requires model.Synced() && NoDuplicates(model.imagesList)
      requires model.currentImage.Some? ==> model.currentImage.value in model.imagesList
      ensures this.model == model && Valid()
    {
      this.model := model;
    }

    /**
     * Adds a name that is not yet listed and selects it, reporting whether
     * it was added; a listed name changes nothing.
     */
    method InsertImage(imageName: string) returns (inserted: bool)
      requires Valid()
      requires imageName !in model.imagesList ==> model.Readable(imageName)
      modifies model
      ensures Valid()
      ensures inserted <==> imageName !in old(model.imagesList)
      ensures inserted ==>
        && model.imagesList == old(model.imagesList) + [imageName]
        && model.currentImage == Some(imageName)
        && model.currentInfo == model.InfoOf(Some(imageName))
        && model.currentExif == model.ExifOf(Some(imageName))
        && model.currentGeo == model.GeoOf(Some(imageName))
      ensures !inserted ==>
        && model.imagesList == old(model.imagesList)
        && model.currentImage == old(model.currentImage)
        && model.currentInfo == old(model.currentInfo)
        && model.currentExif == old(model.currentExif)
        && model.currentGeo == old(model.currentGeo)
    {
      if !model.CheckImage(imageName) {
        AppendDistinct(model.imagesList, imageName);
        model.AddImage(imageName);
        model.SelectImage(Some(imageName));
        return true;
      }
      return false;
    }

    /** Selects the image at a position, or deselects with None. */
    method SelectImage(index: Option<nat>)
      requires Valid()
      requires index.Some? ==> index.value < |model.imagesList|
      requires index.Some? ==> model.Readable(model.imagesList[index.value])
      modifies model
      ensures Valid()
      ensures model.imagesList == old(model.imagesList)
      ensures model.currentImage == if index.None? then None else Some(model.imagesList[index.value])
      ensures model.currentInfo == model.InfoOf(model.currentImage)
      ensures model.currentExif == model.ExifOf(model.currentImage)
      ensures model.currentGeo == model.GeoOf(model.currentImage)
    {
      var imageSelected: Option<string>;
      if index.Some? {
        imageSelected := Some(model.GetImageByIdx(index.value));
      } else {
        imageSelected := None;
      }
      model.SelectImage(imageSelected);
    }

    /**
     * Removes the image at a position; when it is the selected one, the
     * selection is cleared first, otherwise the selection stays.
     */
    method RemoveImage(index: nat)
      requires Valid()
      requires index < |model.imagesList|
      modifies model
      ensures Valid()
      ensures model.imagesList == old(model.imagesList[..index] + model.imagesList[index + 1..])
      ensures old(model.imagesList[index]) !in model.imagesList
      ensures old(model.currentImage) == Some(old(model.imagesList[index])) ==>
        && model.currentImage == None
        && model.currentInfo == map[]
        && model.currentExif == map[]
        && model.currentGeo == None
      ensures old(model.currentImage) != Some(old(model.imagesList[index])) ==>
        && model.currentImage == old(model.currentImage)
        && model.currentInfo == old(model.currentInfo)
        && model.currentExif == old(model.currentExif)
        && model.currentGeo == old(model.currentGeo)
    {
      var imageSelected := model.GetImageByIdx(index);
      RemoveFirstAt(model.imagesList, index);
      RemoveFirstDistinct(model.imagesList, index);
      if Some(imageSelected) == model.GetCurrentImage() {
        model.SelectImage(None);
      }
      model.RemoveImage(imageSelected);
    }

    /** Clears the list and deselects. */
    method EmptyList()
      requires Valid()
      modifies model
      ensures Valid()
      ensures model.imagesList == [] && model.currentImage == None
      ensures model.currentInfo == map[] && model.currentExif == map[] && model.currentGeo == None
    {
      model.EmptyList();
      model.SelectImage(None);
    }

    /** The selection. */
    function GetCurrentImage(): (image: Option<string>)
      reads this, model
      requires Valid()
      ensures image.Some? ==> image.value in model.imagesList
      ensures image == model.currentImage
    {
      model.GetCurrentImage()
    }

    /** The info record and the decoded tags of the selection, both None without one. */
    function GetCurrentData(): (data: (Option<map<string, Value>>, Option<TagMap>))
      reads this, model
      requires Valid()
      ensures model.currentImage.None? ==> data == (None, None)
      ensures data.0.Some? <==> model.currentImage.Some? && model.currentImage.value != ""
      ensures data.0.Some? ==> data.0.value == model.InfoOf(model.currentImage)
      ensures data.1.Some? ==> data.1.value == model.ExifOf(model.currentImage)
      ensures data.0.Some? <==> data.1.Some?
    {
      (model.GetCurrentInfo(), model.GetCurrentExif())
    }

    /** The geo data of the selection; None without one. */
    function GetCurrentGeo(): (geo: Option<TagMap>)
      reads this, model
      requires Valid()
      ensures model.currentImage.None? ==> geo == None
      ensures geo == model.GeoOf(model.currentImage)
    {
      model.GetCurrentGeo()
    }

    /** The listed images, in order and without duplicates. */
    function GetImages(): (images: seq<string>)
      reads this, model
      requires Valid()
      ensures NoDuplicates(images)
      ensures images == model.imagesList
    {
      model.GetAllImages()
    }
  }

  /** Inserting the same name twice leaves it listed once, and the second insert reports false. */
  method InsertTwice(c: ExifController, imageName: string) returns (first: bool, second: bool)
    requires c.Valid()
    requires imageName !in c.model.imagesList ==> c.model.Readable(imageName)
    modifies c.model
    ensures first <==> imageName !in old(c.model.imagesList)
    ensures !second
    ensures multiset(c.model.imagesList)[imageName] == 1
  {
    first := c.InsertImage(imageName);
    second := c.InsertImage(imageName);
    var s := c.model.imagesList;
    var k := IndexOf(s, imageName);
    assert s == s[..k] + [imageName] + s[k + 1..];
    var rest := s[k + 1..];
    assert forall j :: k + 1 <= j < |s| ==> rest[j - k - 1] == s[j];
    assert imageName !in rest;
  }
}
