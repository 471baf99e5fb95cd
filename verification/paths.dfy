/** File names of the backing shelves: shard `c` of a store rooted at
    `dbDir` lives in `os.path.join(dbDir, c + ".db")`. */
module Paths {

  /** `posixpath.join(dir, name)`: an absolute name replaces the
      directory; otherwise no separator is added after an empty directory
      or one ending in `/`. */
  function Join(dir: string, name: string): (p: string)
  {
    if |name| > 0 && name[0] == '/' then name
    else if |dir| == 0 || dir[|dir| - 1] == '/' then dir + name
    else dir + "/" + name
  }

  /** The part of a joined path that comes before the file name. */
  function DirPrefix(dir: string): (p: string) {
    if |dir| == 0 || dir[|dir| - 1] == '/' then dir else dir + "/"
  }

  /** The backing file of one shard. */
  function ShelfPath(dir: string, shard: char): (p: string)
    ensures shard != '/' ==> p == DirPrefix(dir) + [shard] + ".db"
    ensures shard != '/' ==> p[..|dir|] == dir
  {
    Join(dir, [shard] + ".db")
  }

  /** Distinct shards never share a backing file. */
  lemma ShelfPathsDistinct(dir: string, c1: char, c2: char)
    requires c1 != '/' && c2 != '/'
    requires c1 != c2
    ensures ShelfPath(dir, c1) != ShelfPath(dir, c2)
  {
    var n := |DirPrefix(dir)|;
    assert ShelfPath(dir, c1)[n] == c1;
    assert ShelfPath(dir, c2)[n] == c2;
  }
}
