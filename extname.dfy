/** Node's `path.extname`, for a single directory entry name. */
module NodePath {
  import opened Wrappers
  import opened AbstractFs

  /** Position of the last '.' in `s`, if there is one. */
  function LastDot(s: string): (r: Option<nat>)
    ensures r.None? <==> '.' !in s
    ensures r.Some? ==> r.value < |s| && s[r.value] == '.' && '.' !in s[r.value + 1..]
  {
    if s == [] then None
    else if s[|s| - 1] == '.' then Some(|s| - 1)
    else
      var r := LastDot(s[..|s| - 1]);
      assert s == s[..|s| - 1] + [s[|s| - 1]];
      if r.Some? then
        assert s[r.value + 1..] == s[..|s| - 1][r.value + 1..] + [s[|s| - 1]];
        r
      else r
  }

  /** `extname(name)`: the part of the name from its last '.' on, or "" when
      the name has no '.' or its only '.' is the first character (".bashrc").
      Node also answers "" for "..", which is not a `Name`. */
  function Extname(name: Name): (ext: string)
    ensures ext == "" <==> '.' !in name[1..]
    ensures ext != "" ==>
      && |ext| < |name| && ext == name[|name| - |ext|..]
      && ext[0] == '.' && '.' !in ext[1..]
  {
    match LastDot(name)
    case None => ""
    case Some(k) =>
      if k == 0 then ""
      else
        assert name[k] in name[1..];
        name[k..]
  }
}
