/**
 * The application side's Detection.get_filename (application/models.py): the decoded
 * frame lives directly in FILES_STORAGE under the unpadded id. Its extension rule and
 * its `__str__` formats are those of the imported tables, so they are shared with
 * DatabaseModels.
 */
module ApplicationModels {
  import opened Text
  import opened DatabaseModels

  /** The file's own name: `'%d.%s' % (id, ext)`. */
  function FlatBaseName(id: int, mime: string): string
  {
    IntToString(id) + "." + Extension(mime)
  }

  /** Detection.get_filename: `os.path.join(FILES_STORAGE, '%d.%s' % (id, ext))`. */
  function GetFlatFilename(filesStorage: string, id: int, mime: string): string
  {
    PathJoin(filesStorage, FlatBaseName(id, mime))
  }

  /** The base name holds no separator, and ends in a dot and the extension. */
  lemma FlatBaseNameSpec(id: int, mime: string)
    ensures Lacks(FlatBaseName(id, mime), '/') && FlatBaseName(id, mime)[0] != '/'
    ensures var s := FlatBaseName(id, mime);
      |s| >= 5 && s[|s| - 4] == '.' && s[|s| - 3..] == Extension(mime)
  {
    IntToStringChars(id);
  }

  /**
   * The file lies directly under FILES_STORAGE, with no intermediate directory: the
   * path is the storage path, at most one separator, and a name without separators.
   */
  lemma DirectlyUnderStorage(filesStorage: string, id: int, mime: string)
    ensures exists sep :: (sep == "" || sep == "/") &&
                          GetFlatFilename(filesStorage, id, mime) == filesStorage + sep + FlatBaseName(id, mime)
    ensures Lacks(FlatBaseName(id, mime), '/')
  {
    FlatBaseNameSpec(id, mime);
    if filesStorage == [] || filesStorage[|filesStorage| - 1] == '/' {
      assert GetFlatFilename(filesStorage, id, mime) == filesStorage + "" + FlatBaseName(id, mime);
    } else {
      assert GetFlatFilename(filesStorage, id, mime) == filesStorage + "/" + FlatBaseName(id, mime);
    }
  }

  /** Different detections never share a file: equal names mean the same id and extension. */
  lemma FlatFilenameInjective(filesStorage: string, a: int, ma: string, b: int, mb: string)
    requires GetFlatFilename(filesStorage, a, ma) == GetFlatFilename(filesStorage, b, mb)
    ensures a == b && Extension(ma) == Extension(mb)
  {
    FlatBaseNameSpec(a, ma);
    FlatBaseNameSpec(b, mb);
    var na, nb := FlatBaseName(a, ma), FlatBaseName(b, mb);
    LastComponentUnique(filesStorage, na, filesStorage, nb);
    assert IntToString(a) == na[..|na| - 4] && IntToString(b) == nb[..|nb| - 4];
    IntToStringInjective(a, b);
  }
}
