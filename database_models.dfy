/**
 * Storage paths and display strings of the imported CREDO tables (database/models.py):
 * a detection's decoded frame lives in MEDIA_ROOT/<top>/<middle>/<id>.<ext>, where <top>
 * and <middle> are the id's quotients by 10^8 and 10^4, zero padded to four digits.
 */
module DatabaseModels {
  import opened Text

  /** Detection.get_filename's extension: `png` for a PNG frame, `dat` for anything else. */
  function Extension(mime: string): (ext: string)
    ensures ext == "png" <==> mime == "image/png"
    ensures ext == "png" || ext == "dat"
  {
    if mime == "image/png" then "png" else "dat"
  }

  /** The top directory: `'%04d' % int(id / 100000000)`. */
  function Top(id: int): string
  {
    ZeroPad(TruncDiv(id, 100000000), 4)
  }

  /** The middle directory: `'%04d' % int(id / 10000)`, the whole quotient (not reduced modulo 10000). */
  function Middle(id: int): string
  {
    ZeroPad(TruncDiv(id, 10000), 4)
  }

  /** Detection.get_filepath: `os.path.join(MEDIA_ROOT, top, middle)`. */
  function GetFilepath(mediaRoot: string, id: int): string
  {
    PathJoin(PathJoin(mediaRoot, Top(id)), Middle(id))
  }

  /** The file's own name: `'%09d.%s' % (id, ext)`. */
  function BaseName(id: int, mime: string): string
  {
    ZeroPad(id, 9) + "." + Extension(mime)
  }

  /** Detection.get_filename: the base name joined onto get_filepath(). */
  function GetFilename(mediaRoot: string, id: int, mime: string): string
  {
    PathJoin(GetFilepath(mediaRoot, id), BaseName(id, mime))
  }

  /** Team.__str__. */
  function TeamStr(name: string): string
  {
    "Team " + name
  }

  /** CredoUser.__str__: `"User %s (%d)"`. */
  function UserStr(displayName: string, id: int): string
  {
    "User " + displayName + " (" + IntToString(id) + ")"
  }

  /** Device.__str__: `"Device %s (%s)"`. */
  function DeviceStr(deviceId: string, deviceModel: string): string
  {
    "Device " + deviceId + " (" + deviceModel + ")"
  }

  /** Detection.__str__: `"Detection %s"` of the integer id. */
  function DetectionStr(id: int): string
  {
    "Detection " + IntToString(id)
  }

  // ---------------------------------------------------------------------------

  /**
   * The directory components: each holds at least four characters, only digits apart
   * from a leading minus sign for a negative quotient, and no separator.
   */
  lemma ComponentsSpec(id: int)
    ensures |Top(id)| >= 4 && |Middle(id)| >= 4
    ensures Lacks(Top(id), '/') && Lacks(Middle(id), '/')
    ensures forall i :: 0 <= i < |Middle(id)| ==> IsDigit(Middle(id)[i]) || (i == 0 && id <= -10000)
    ensures forall i :: 0 <= i < |Top(id)| ==> IsDigit(Top(id)[i]) || (i == 0 && id <= -100000000)
    ensures Top(id)[0] != '/' && Middle(id)[0] != '/'
  {
    ZeroPadSpec(TruncDiv(id, 100000000), 4);
    ZeroPadSpec(TruncDiv(id, 10000), 4);
  }

  /** The middle component keeps the whole quotient: id 123456789 is filed under `0001/12345`. */
  lemma MiddleUnreduced()
    ensures Top(123456789) == "0001"
    ensures Middle(123456789) == "12345"
  {
    assert TruncDiv(123456789, 10000) == 12345;
    assert NatToString(1) == "1";
    assert NatToString(12345) == "12345" by {
      assert NatToString(12) == "12";
      assert NatToString(123) == "123";
      assert NatToString(1234) == "1234";
    }
  }

  /** A path that does not end in a separator, joined with a relative component, gets one separator between them. */
  lemma JoinUnder(dir: string, name: string)
    requires |dir| > 0 && dir[|dir| - 1] != '/' && |name| > 0 && name[0] != '/'
    ensures PathJoin(dir, name) == dir + "/" + name
  {
  }

  /**
   * get_filepath is MEDIA_ROOT, then the top component, then the middle one, each
   * after one separator (when MEDIA_ROOT does not end in one).
   */
  lemma FilepathLayout(mediaRoot: string, id: int)
    requires |mediaRoot| > 0 && mediaRoot[|mediaRoot| - 1] != '/'
    ensures GetFilepath(mediaRoot, id) == mediaRoot + "/" + Top(id) + "/" + Middle(id)
  {
    ComponentsSpec(id);
    JoinUnder(mediaRoot, Top(id));
    var t := mediaRoot + "/" + Top(id);
    assert t[|t| - 1] == Top(id)[|Top(id)| - 1];
    JoinUnder(t, Middle(id));
  }

  /**
   * Two ids share a directory exactly when they share the quotient by 10000: ids in the
   * same block of 10000 are stored together, ids in different blocks apart.
   */
  lemma SameDirectory(mediaRoot: string, a: int, b: int)
    ensures GetFilepath(mediaRoot, a) == GetFilepath(mediaRoot, b) <==> TruncDiv(a, 10000) == TruncDiv(b, 10000)
  {
    ComponentsSpec(a);
    ComponentsSpec(b);
    if GetFilepath(mediaRoot, a) == GetFilepath(mediaRoot, b) {
      LastComponentUnique(PathJoin(mediaRoot, Top(a)), Middle(a), PathJoin(mediaRoot, Top(b)), Middle(b));
      ZeroPadInjective(TruncDiv(a, 10000), TruncDiv(b, 10000), 4);
    }
    if TruncDiv(a, 10000) == TruncDiv(b, 10000) {
      TruncDivNested(a);
      TruncDivNested(b);
    }
  }

  /** The base name holds no separator and starts with the padded id. */
  lemma BaseNameSpec(id: int, mime: string)
    ensures Lacks(BaseName(id, mime), '/') && BaseName(id, mime)[0] != '/'
    ensures |BaseName(id, mime)| == |ZeroPad(id, 9)| + 4
  {
    ZeroPadSpec(id, 9);
  }

  /** The file lies directly inside get_filepath(), one separator after it. */
  lemma FileInDirectory(mediaRoot: string, id: int, mime: string)
    ensures GetFilename(mediaRoot, id, mime) == GetFilepath(mediaRoot, id) + "/" + BaseName(id, mime)
  {
    ComponentsSpec(id);
    BaseNameSpec(id, mime);
    var dir := GetFilepath(mediaRoot, id);
    PathJoinShape(PathJoin(mediaRoot, Top(id)), Middle(id));
    var p :| dir == p + Middle(id) && (p == [] || p[|p| - 1] == '/');
    assert dir[|dir| - 1] == Middle(id)[|Middle(id)| - 1];
    JoinUnder(dir, BaseName(id, mime));
  }

  /** Equal base names come from the same id and the same extension. */
  lemma BaseNameInjective(a: int, ma: string, b: int, mb: string)
    requires BaseName(a, ma) == BaseName(b, mb)
    ensures a == b && Extension(ma) == Extension(mb)
  {
    var s := BaseName(a, ma);
    var pa, pb := ZeroPad(a, 9), ZeroPad(b, 9);
    assert |pa| == |pb|;
    assert pa == s[..|pa|] && pb == s[..|pb|];
    ZeroPadInjective(a, b, 9);
    assert Extension(ma) == s[|pa| + 1..] && Extension(mb) == s[|pb| + 1..];
  }

  /**
   * Different detections never share a file: equal file names under one MEDIA_ROOT mean
   * the same id and the same extension.
   */
  lemma FilenameInjective(mediaRoot: string, a: int, ma: string, b: int, mb: string)
    requires GetFilename(mediaRoot, a, ma) == GetFilename(mediaRoot, b, mb)
    ensures a == b && Extension(ma) == Extension(mb)
  {
    BaseNameSpec(a, ma);
    BaseNameSpec(b, mb);
    ZeroPadSpec(a, 9);
    LastComponentUnique(GetFilepath(mediaRoot, a), BaseName(a, ma), GetFilepath(mediaRoot, b), BaseName(b, mb));
    BaseNameInjective(a, ma, b, mb);
  }

  /** "Team <name>" determines the name. */
  lemma TeamStrInjective(a: string, b: string)
    requires TeamStr(a) == TeamStr(b)
    ensures a == b
  {
    assert a == TeamStr(a)[5..] && b == TeamStr(b)[5..];
  }

  /** "Detection <id>" determines the id. */
  lemma DetectionStrInjective(a: int, b: int)
    requires DetectionStr(a) == DetectionStr(b)
    ensures a == b
  {
    assert IntToString(a) == DetectionStr(a)[10..] && IntToString(b) == DetectionStr(b)[10..];
    IntToStringInjective(a, b);
  }

  /**
   * "User <display_name> (<id>)" determines both parts, whatever the display name
   * holds: the id's text has no parenthesis, so the last " (" separates them.
   */
  lemma UserStrInjective(n1: string, id1: int, n2: string, id2: int)
    requires UserStr(n1, id1) == UserStr(n2, id2)
    ensures n1 == n2 && id1 == id2
  {
    IntToStringChars(id1);
    IntToStringChars(id2);
    var s1, s2 := UserStr(n1, id1), UserStr(n2, id2);
    var p1, p2 := "User " + n1 + " (", "User " + n2 + " (";
    assert s1[..|s1| - 1] == p1 + IntToString(id1);
    assert s2[..|s2| - 1] == p2 + IntToString(id2);
    SplitAtLast(p1, IntToString(id1), p2, IntToString(id2), '(');
    IntToStringInjective(id1, id2);
    assert n1 == p1[5..|p1| - 2] && n2 == p2[5..|p2| - 2];
  }

  /**
   * "Device <device_id> (<model>)" determines both parts when the model holds no
   * opening parenthesis; without that a device id "a (b" with model "c" reads like
   * device "a" with model "b (c".
   */
  lemma DeviceStrInjective(i1: string, m1: string, i2: string, m2: string)
    requires Lacks(m1, '(') && Lacks(m2, '(')
    requires DeviceStr(i1, m1) == DeviceStr(i2, m2)
    ensures i1 == i2 && m1 == m2
  {
    var s1, s2 := DeviceStr(i1, m1), DeviceStr(i2, m2);
    var p1, p2 := "Device " + i1 + " (", "Device " + i2 + " (";
    assert s1[..|s1| - 1] == p1 + m1;
    assert s2[..|s2| - 1] == p2 + m2;
    SplitAtLast(p1, m1, p2, m2, '(');
    assert i1 == p1[7..|p1| - 2] && i2 == p2[7..|p2| - 2];
  }
}
