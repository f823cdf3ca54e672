# EXIF viewer core, modelled in Dafny

This project models the core of a desktop EXIF viewer. It has three parts:

- **The model** (`ExifModel`). It keeps an ordered list of image names and the selected image (None or a name). It also keeps the data extracted from the selected image: a file-info record, the decoded tag mapping and the optional GPS ("geo") mapping.
- **The controller** (`ExifController`). It adds the list rules on top of the model: insert only when absent and then select, select and remove by position, and clear-and-deselect.
- **The window's link computation.** It turns the geo data's degree/minute/second triples into decimal coordinates and a Google Maps link.

Files:

- `wrappers.dfy`, module `Wrappers`: `Option`, standing for Python's `None`-or-value.
- `lists.dfy`, module `Lists`: the Python list semantics the registry relies on. `list.remove` deletes the first occurrence (`IndexOf`, `RemoveFirst`); `NoDuplicates` is the controller's list invariant.
- `metadata.dfy`, module `Metadata`: tag keys and values, and the abstract tag source (`ImageFile`). The decoding rules are specification functions: `DecodeKey` is `table.get(key, key)`. `ExifTable`, `GpsTable` and `GeoTable` are the mappings the extraction loop builds. Lemmas state what those mappings contain.
- `exif_model.dfy`, module `Model`: class `ExifModel`, with the Python class's fields. `ExtractCurrentExif` holds the tag loop in place on the fields, with a prefix invariant. `DecodeGpsInfo` holds the inner GPS loop. `Synced()` states that the extracted data always belongs to the current selection.
- `exif_controller.dfy`, module `Controller`: class `ExifController`, over a `const model`. Its `Valid()` says three things: the list has no duplicates, the selection is None or a listed name, and the model is `Synced()`. Every operation keeps `Valid()` and states the new state.
- `exif_view.dfy`, module `View`: the DMS-to-decimal formula, the link, and `ParseLink`, an inverse used to show the link carries both coordinates.

The following inputs are parameters:

- Opening an image is `disk: string -> ImageFile`, a constant of the model. It gives the file facts behind the info record, the raw tags in dictionary-iteration order, and an optional position `failAt` where a text-decoding failure is raised.
- The TAGS and GPSTAGS code-to-name tables are constant maps.
- Float-to-text conversion is the function parameter `text`.
- Arithmetic is exact over `real`.

Worth noting in the code:

- `insert_image` selects the image it adds (ExifController.py:20).
- The model's `remove_image` raises on an absent name (Python's `list.remove`), so membership is a precondition (ExifModel.py:39).
- The getters test the selection by truthiness (ExifModel.py:138, 147). A selected empty name therefore reports None, the same as no selection.

## Model

| member | source | states |
|---|---|---|
| `Model.ExifModel.constructor` | ExifModel.py:18-23 | Nothing is selected; info and exif are empty; geo is None; the list is empty; the data is in sync with the (empty) selection |
| `Model.ExifModel.AddImage` | ExifModel.py:25-31 | The name is appended at the end and earlier names are unchanged; there is no duplicate check |
| `Model.ExifModel.RemoveImage` | ExifModel.py:33-39 | The first occurrence of the (present) name is deleted and the others keep their order; exactly one copy leaves the multiset |
| `Model.ExifModel.EmptyList` | ExifModel.py:41-46 | The list becomes empty; the selection and its data are untouched |
| `Model.ExifModel.SelectImage` | ExifModel.py:48-56 | For None or a listed name, the selection becomes that name and the data is recomputed for it; for any other name the selection, info, exif and geo are all unchanged |
| `Model.ExifModel.CheckImage` | ExifModel.py:58-66 | True exactly when the name is in the list |
| `Model.ExifModel.GetImageByIdx` | ExifModel.py:68-74 | Returns the name at the valid position; in a duplicate-free list that position is where the name first occurs |
| `Model.ExifModel.GetAllImages` | ExifModel.py:76-81 | Returns the list itself |
| `Model.ExifModel.ExtractCurrentData` | ExifModel.py:83-89 | Info, exif and geo become those of the current selection |
| `Model.ExifModel.ExtractCurrentInfo` | ExifModel.py:91-103 | The record is empty exactly when nothing is selected, and has exactly the five keys exactly when something is |
| `Model.ExifModel.ExtractCurrentExif` | ExifModel.py:106-131 | Starting from empty exif and None geo, the tags are folded up to the decoding-failure position (all of them when there is none): exif is `ExifTable` and geo is `GeoTable` of that prefix |
| `Model.ExifModel.DecodeGpsInfo` | ExifModel.py:123-127 | The GPS block's sub-keys are resolved through GPSTAGS, and later entries overwrite earlier ones (`GpsTable`) |
| `Model.ExifModel.GetCurrentInfo` | ExifModel.py:133-140 | Returns the info record when the selection is a non-empty name, otherwise None |
| `Model.ExifModel.GetCurrentExif` | ExifModel.py:142-149 | Returns the decoded tags when the selection is a non-empty name, otherwise None |
| `Model.ExifModel.GetCurrentGeo` | ExifModel.py:151-156 | Returns the geo data unconditionally |
| `Model.ExifModel.GetCurrentImage` | ExifModel.py:158-163 | Returns the selection |
| `Model.DeselectedIsEmpty` | ExifModel.py:96-114 | With no selection: info is `{}`, exif is `{}`, geo is None, and all three getters return None |
| `Model.SelectedIffInfo` | ExifModel.py:96-103 | An image is selected exactly when the info record holds the five keys, and none is selected exactly when the record is empty |
| `Metadata.InfoRecord` | ExifModel.py:99-103 | The record of a selected image has exactly the five keys |
| `Metadata.Processed` | ExifModel.py:113-131 | The number of tags read: the failure position when it falls inside the tags, otherwise all of them |
| `Metadata.DecodeKey` | ExifModel.py:121-125 | `table.get(key, key)`: the table's name when the key has an entry, otherwise the raw key itself |
| `Metadata.ExifTable` | ExifModel.py:111-129 | The decoded tag mapping, which the loop is proved equal to; it never holds "GPSInfo" and has at most one entry per tag |
| `Metadata.GpsTable` | ExifModel.py:123-126 | The decoded GPS block, which the inner loop is proved equal to; it has at most one entry per sub-tag |
| `Metadata.GeoTable` | ExifModel.py:112-127 | The geo data; when present, it is the GPSTAGS-decoded table of some tag that resolves to "GPSInfo" |
| `Metadata.ExifTableKeys` | ExifModel.py:120-129 | The decoded mapping's keys are exactly the resolved keys of the tags other than "GPSInfo"; "GPSInfo" never appears |
| `Metadata.ExifTableLastWins` | ExifModel.py:120-129 | A tag whose resolved name no later tag shares keeps its value, so the last write wins |
| `Metadata.UnknownKeyKept` | ExifModel.py:121 | A raw key with no TAGS entry appears in the mapping under that raw key |
| `Metadata.PartialExifKeysIncluded` | ExifModel.py:120-131 | Every key accumulated before a decoding failure is also a key of the full read |
| `Metadata.GpsTableKeys` | ExifModel.py:123-126 | The geo mapping's keys are exactly the GPSTAGS-resolved sub-keys |
| `Metadata.GpsTableLastWins` | ExifModel.py:124-126 | A sub-key resolved from no later entry keeps its entry's value |
| `Metadata.GeoTableAbsent` | ExifModel.py:112-127 | Geo stays None exactly when no tag resolves to "GPSInfo" |
| `Metadata.GeoTableLast` | ExifModel.py:122-127 | Geo is the GPSTAGS-decoded table of the last "GPSInfo" tag |
| `Lists.IndexOf` | ExifModel.py:39 | The position `list.remove` deletes: it holds the name, and no earlier position does |
| `Lists.RemoveFirst` | ExifModel.py:39 | Removing a present name shortens the list by one |
| `Lists.RemoveFirstMultiset` | ExifModel.py:39 | Removal takes exactly one copy of the name out of the list's multiset |
| `Lists.RemoveFirstAt` | ExifController.py:42-45 | In a duplicate-free list, removing the name at position i deletes exactly position i |
| `Lists.RemoveFirstDistinct` | ExifController.py:42-45 | The result has no duplicates, lacks the removed name and keeps every other name |
| `Lists.AppendDistinct` | ExifController.py:18-19 | Appending an absent name keeps the list duplicate-free |
| `Controller.ExifController.constructor` | ExifController.py:9-10 | Wraps a model that already has no duplicates, a listed-or-None selection and synced data |
| `Controller.ExifController.InsertImage` | ExifController.py:12-22 | Returns true exactly when the name was absent; then it is appended and selected, with its data extracted; otherwise list, selection and data are unchanged; no duplicates, and the selection is None or listed |
| `Controller.ExifController.SelectImage` | ExifController.py:24-34 | None deselects; a valid position selects the name there; the data matches the new selection and the list is unchanged |
| `Controller.ExifController.RemoveImage` | ExifController.py:36-45 | The element at the valid position is deleted and the rest keep their order; if it was selected, the selection becomes None with empty data, otherwise selection and data are unchanged |
| `Controller.ExifController.EmptyList` | ExifController.py:47-53 | The list is empty, nothing is selected, info and exif are `{}`, geo is None |
| `Controller.ExifController.GetCurrentImage` | ExifController.py:55-60 | Returns the model's selection, which is None or a listed name |
| `Controller.ExifController.GetCurrentData` | ExifController.py:62-69 | Returns the pair (info, exif): both present exactly when the selection is a non-empty name, and then they are the selection's extracted data; both None without a selection |
| `Controller.ExifController.GetCurrentGeo` | ExifController.py:71-76 | Returns the selection's geo data, None without a selection |
| `Controller.ExifController.GetImages` | ExifController.py:78-83 | Returns the model's list, which has no duplicates |
| `Controller.InsertTwice` | ExifController.py:12-22 | Inserting a name twice leaves it listed exactly once; the second insert returns false |
| `View.Decimal` | ExifView.py:180-181 | `d + m/60 + s/3600`: that many seconds, divided by 3600 |
| `View.DmsToDecimal` | ExifView.py:180-181 | A triple's decimal degrees are its first three components taken as degrees, minutes and seconds |
| `View.Coordinates` | ExifView.py:178-181 | Latitude comes from the "GPSLatitude" triple and longitude from the "GPSLongitude" triple, each as degrees + minutes/60 + seconds/3600, with no hemisphere sign |
| `View.MapsUrl` | ExifView.py:182 | The address is `https://www.google.it/maps?q=`, then the latitude text, a ",", and the longitude text |
| `View.GeoLink` | ExifView.py:174-184 | The label is "" exactly when there is no geo data; otherwise it is the anchor `<a href="…">Apri posizione in Google Maps</a>` around the map address of the two coordinate texts |
| `View.GeoLinkEmpty` | ExifView.py:174-176 | The label text is empty exactly when there is no geo data |
| `View.GeoLinkRoundTrip` | ExifView.py:178-183 | The anchor wraps `https://www.google.it/maps?q=` + lat text + "," + lon text; both texts can be read back out of it |
| `View.SplitAtJoin` | ExifView.py:182 | Joining two texts with "," and splitting at the first "," recovers them when the first has no "," |
| `View.SplitAt` | ExifView.py:182 | Splits at the first occurrence of the separator, or reports that it does not occur |
| `View.CoordinatesNonNegative` | ExifView.py:178-181 | The hemisphere is ignored: non-negative triples give non-negative coordinates, whatever the reference fields say |
| `View.CoordinatesReadOnlyTriples` | ExifView.py:178-179 | Only "GPSLatitude" and "GPSLongitude" are read; changing any other entry leaves both coordinates unchanged |
| `View.CoordinatesIndependent` | ExifView.py:180-181 | Each coordinate is `d + m/60 + s/3600` of its own triple, and changing one triple leaves the other coordinate unchanged |
| `View.DecimalWithinDegree` | ExifView.py:180 | With minutes at most 59 and seconds below 60, the decimal lies in [d, d + 1) |
| `View.DecimalExample` | ExifView.py:180 | (41, 54, 9) gives 41.9025 |

## Left out

- Image decoding, the filesystem and timestamps (`Image.open`, `getexif`, `image.info`, `os.path.getctime`/`getmtime`, `time.ctime`, `os.path.basename`). These belong to the image library and the OS. What they yield is the abstract `ImageFile` from `disk`. The file system is treated as fixed while the program runs.
- The PNG-or-EXIF choice of tag source (ExifModel.py:116-119) is part of that input: `ImageFile.tags` is the chosen source.
- The contents of TAGS and GPSTAGS. They are library data, so they are taken as given maps.
- A file that cannot be opened (the exception from `Image.open`) is not modelled. `disk` is total.
- The log line printed on a decoding failure (ExifModel.py:131) is output only.
- A decoding failure is modelled at the top-level tag where it is raised, `failAt`. This also covers a failure inside the GPS sub-loop of tag k: the geo field is assigned only after that sub-loop finishes (ExifModel.py:127), so the state left behind is the same as for `failAt == k`.
- `Model.ExifModel.Readable` excludes, for the tags actually read, every "GPSInfo" payload that is not a nested table. Python raises on most such payloads:
  - a number, a non-empty string, or a tuple with a non-integer item raises `TypeError`;
  - an integer item or byte value outside the payload's range raises `IndexError`.

  Python accepts an empty payload (geo becomes `{}`), and tuples or byte strings whose items index the payload itself. The model represents none of these outcomes.
- The GPS sub-table is a sequence of pairs. `gps_data[...] = value[v]` is modelled as writing each pair's own value. This agrees with Python because a dictionary's keys are unique.
- Python's negative indexing in `get_image_by_idx`. Positions are restricted to `[0, len)` by precondition; an out-of-range position raises in the source.
- View.GeoLink: its precondition `View.HasCoordinates` excludes three error paths of ExifView.py:178-181. They are the `KeyError` for a missing "GPSLatitude" or "GPSLongitude", the `IndexError` for a triple shorter than three, and the `TypeError` for non-numeric components. These exceptions propagate out of the window code uncaught, so the model states no result for them; the same precondition stands on the `View.Coordinates*` and `View.GeoLink*` lemmas.
- Float arithmetic and `str(float)`. Coordinates are exact reals, and the text conversion is the parameter `text`.
- The view's `setText` side effect and everything else in the window and widgets (layout, dialogs, drag-and-drop, thumbnails, rotation, tree rendering): these are presentation. `View.GeoLink` takes the selection's geo data as its input, which is what `update_current_geo` reads from the controller.
- The change notifications sent to observers carry no data, so nothing about them is modelled.
