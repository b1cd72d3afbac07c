/** The per-object record the connection engine of ig_lib.c passes around. */
module ConnectionInfo {
  import opened Wrappers

  type Name = string

  /** A module, the default instance of a non-resource module, or an instance of a resource module. */
  datatype Obj = Mod(name: Name) | Def(name: Name) | Res(name: Name)

  datatype Dir = UP | DOWN | BIDIR | DEFAULT

  datatype CInfo = CInfo(
    obj: Obj,
    parentName: Option<string>,
    localName: Option<string>,
    isExplicit: bool,
    forceName: bool,
    dir: Dir,
    invert: bool)

  /** ig_lib_connection_info_new */
  function NewInfo(obj: Obj, localName: Option<string>, dir: Dir): CInfo {
    CInfo(obj, None, localName, false, false, dir, false)
  }

  function Objs(path: seq<CInfo>): seq<Obj> {
    seq(|path|, i requires 0 <= i < |path| => path[i].obj)
  }
}
