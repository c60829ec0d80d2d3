/**
 * File paths and the part of the filesystem the application looks at: which files
 * exist, how large they are, and whether their contents decode as an image.
 */
module Paths {
  import opened Strings

  /** What the application can learn about one file: `os.path.getsize` and whether Qt decodes it. */
  datatype FileInfo = FileInfo(size: nat, decodes: bool)

  /** The files present, by path; `os.path.exists` and `os.path.isfile` are membership. */
  type FileSystem = map<string, FileInfo>

  /** POSIX `os.path.join(a, b)`: an absolute `b` replaces `a`, otherwise one `/` separates them. */
  function PathJoin(a: string, b: string): (r: string)
    ensures EndsWith(r, b)
    ensures !StartsWith(b, "/") ==> StartsWith(r, a)
  {
    if StartsWith(b, "/") then b
    else if a == [] || EndsWith(a, "/") then a + b
    else a + "/" + b
  }

  lemma StartsWithSlash(s: string)
    ensures StartsWith(s, "/") <==> |s| > 0 && s[0] == '/'
  {
    if |s| > 0 {
      assert s[..1] == [s[0]];
    }
  }

  /** Appending `.jpg` never changes whether a name is absolute. */
  lemma PhotoNameAbsolute(componentId: string)
    ensures StartsWith(componentId + ".jpg", "/") <==> StartsWith(componentId, "/")
  {
    StartsWithSlash(componentId + ".jpg");
    StartsWithSlash(componentId);
    if componentId == [] {
      assert componentId + ".jpg" == ".jpg";
    } else {
      assert (componentId + ".jpg")[0] == componentId[0];
    }
  }

  /** `os.path.join(image_folder, f"{component_id}.jpg")`: where a component's photo lives. */
  function ImagePath(folder: string, componentId: string): (p: string)
    ensures EndsWith(p, componentId + ".jpg")
    ensures !StartsWith(componentId, "/") ==> StartsWith(p, folder)
  {
    PhotoNameAbsolute(componentId);
    PathJoin(folder, componentId + ".jpg")
  }

  /** Within one folder, distinct relative component ids never share a photo path. */
  lemma ImagePathInjective(folder: string, id1: string, id2: string)
    requires !StartsWith(id1, "/") && !StartsWith(id2, "/")
    requires ImagePath(folder, id1) == ImagePath(folder, id2)
    ensures id1 == id2
  {
    var dir := if folder == [] || EndsWith(folder, "/") then folder else folder + "/";
    var n1 := id1 + ".jpg";
    var n2 := id2 + ".jpg";
    PhotoNameAbsolute(id1);
    PhotoNameAbsolute(id2);
    assert dir + n1 == dir + n2;
    assert n1 == (dir + n1)[|dir|..];
    assert n2 == (dir + n2)[|dir|..];
    assert id1 == n1[..|id1|] == n2[..|id2|] == id2;
  }

  /** An id that is itself an absolute path escapes the folder and can collide with another id. */
  lemma AbsoluteIdCollides()
    ensures ImagePath("/img", "/img/x") == ImagePath("/img", "x")
  {
    PhotoNameAbsolute("/img/x");
    PhotoNameAbsolute("x");
    StartsWithSlash("/img/x");
    StartsWithSlash("x");
    assert !EndsWith("/img", "/");
  }
}
