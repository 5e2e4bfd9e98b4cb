/** The file system as its users see it: operations on a tree of named files and directories. */
module AbstractFs {
  import opened Bytes
  import opened FatLayout
  import opened FatChains
  import opened Volume
  import opened VolumeEdits

  const MEMBERS_MAX: nat := 62  // 64 slots, less the directory itself and its parent

  /** A directory answers to its own name and to "..", besides the names of its members. */
  predicate IsSelf(dir: Directory, key: Key) {
    key == Key(dir.name, NO_EXT)
  }

  /** A lookup of `key` finds something. A blank name finds any unused slot. */
  predicate Taken(dir: Directory, key: Key) {
    || IsSelf(dir, key)
    || key == DOT_DOT_KEY
    || key in dir.entries
    || (key == BLANK_KEY && |dir.entries| < MEMBERS_MAX)
  }

  function ToSet(s: seq<nat>): set<nat> {
    set x | x in s
  }

  /** The `n` lowest-numbered free clusters. */
  function Lowest(free: set<nat>, n: nat): set<nat>
    requires n <= |Ascending(free, 3)|
  {
    ToSet(Ascending(free, 3)[..n])
  }

  function AbstractMkdir(a: Abstract, p: nat, name: Name): (Abstract, int)
    requires p in a.tree && |Ascending(a.free, 3)| > 0
  {
    if |a.tree[p].entries| >= MEMBERS_MAX then (a, -1)
    else
      var k := Ascending(a.free, 3)[0];
      (Abstract(Insert(a.tree, p, Key(name, NO_EXT), SubDir(k))[k := Directory(name, p, map[])],
                a.free - {k}), 0)
  }

  function AbstractWriteFile(a: Abstract, p: nat, key: Key, data: seq<byte>): (Abstract, int)
    requires p in a.tree
  {
    var need := CeilDiv(|data|, CLUSTER_SIZE);
    if need > |Ascending(a.free, 3)| then (a, -1)
    else (Abstract(Insert(a.tree, p, key, File(data)), a.free - Lowest(a.free, need)), 0)
  }

  function AbstractWrite(a: Abstract, p: nat, key: Key, data: seq<byte>): (Abstract, int)
    requires p in a.tree
  {
    if Ascending(a.free, 3) == [] then (a, -1)
    else if Taken(a.tree[p], key) then (a, 1)
    else if data == [] then AbstractMkdir(a, p, key.name)
    else AbstractWriteFile(a, p, key, data)
  }

  /** The lookup in `p` finds the directory `k` with parent `up`: deleting it is refused, or drops it. */
  function AbstractDelete(a: Abstract, p: nat, key: Key): (Abstract, int)
    requires p in a.tree
  {
    var dir := a.tree[p];
    if IsSelf(dir, key) then (a, if p == ROOT_CLUSTER then -1 else 2)
    else if key == DOT_DOT_KEY then (a, if dir.parent == ROOT_CLUSTER then -1 else 2)
    else if key !in dir.entries then (a, 1)
    else
      match dir.entries[key]
      case File(_) => (a.(tree := Remove(a.tree, p, key)), 0)
      case SubDir(k) =>
        if k in a.tree && a.tree[k].entries != map[] then (a, 2)
        else (Abstract(Remove(a.tree, p, key) - {k}, a.free + {k}), 0)
  }

  /**
   * When deleting is harmless: not the directory's own entry while it is empty and below the
   * root, and not a blank name while a slot is unused.
   */
  predicate DeleteAllowed(dir: Directory, p: nat, key: Key) {
    && !(IsSelf(dir, key) && p != ROOT_CLUSTER && dir.entries == map[])
    && !(key == BLANK_KEY && |dir.entries| < MEMBERS_MAX)
  }

  /**
   * When a write is harmless: a file needs an unused slot, and a directory, which is stored
   * without the extension it was asked for, a name not yet taken without extension.
   */
  predicate WriteAllowed(a: Abstract, p: nat, key: Key, data: seq<byte>)
    requires p in a.tree
  {
    Ascending(a.free, 3) == [] || Taken(a.tree[p], key) ||
      if data == [] then
        |a.tree[p].entries| < MEMBERS_MAX ==> key.name != BLANK_KEY.name && !Taken(a.tree[p], Key(key.name, NO_EXT))
      else |a.tree[p].entries| < MEMBERS_MAX
  }
}
