/** Content keys and where a key's blob lives: the key is the hex digest of
    the blob's bytes, and the blob is stored at `root/key[0:2]/key`. */
module Placement {
  import opened Strings

  newtype Byte = b: int | 0 <= b < 256
  type Bytes = seq<Byte>

  predicate IsHexDigit(c: char)
  {
    '0' <= c <= '9' || 'a' <= c <= 'f'
  }

  /** A key is a 32-character lower-case hex string (an MD5 hex digest). */
  predicate IsKey(s: string)
  {
    |s| == 32 && forall i :: 0 <= i < |s| ==> IsHexDigit(s[i])
  }

  type Key = s: string | IsKey(s) witness "00000000000000000000000000000000"

  /** The digest that turns uploaded bytes into their key. MD5 itself is not
      modelled: any function into keys may stand for it. */
  type Digest = Bytes -> Key

  /** Number of leading key characters that name the shard directory. */
  const ShardWidth: nat := 2

  /** `name[0:2]`: Python's slice, which yields the whole name when it is
      shorter than two characters. */
  function Shard(name: string): (r: string)
    ensures |name| >= ShardWidth ==> |r| == ShardWidth
    ensures |name| < ShardWidth ==> r == name
    ensures r <= name
  {
    if |name| < ShardWidth then name else name[..ShardWidth]
  }

  /** A place below the store root: a shard directory and a file name in it. */
  datatype Location = Location(shard: string, name: string)

  /** Where the file called `name` is looked for (and, for a key, stored). */
  function Place(name: string): (loc: Location)
    ensures loc.name == name && loc.shard <= name
    ensures |loc.shard| == if |name| < ShardWidth then |name| else ShardWidth
  {
    Location(Shard(name), name)
  }

  /** `os.path.join(a, b)` on POSIX. */
  function Join(a: string, b: string): (r: string)
    ensures b != [] && b[0] == '/' ==> r == b
    ensures (b == [] || b[0] != '/') ==> r == a + b || r == a + "/" + b
    ensures (b == [] || b[0] != '/') && a != [] && a[|a| - 1] != '/' ==> r == a + "/" + b
    ensures (b == [] || b[0] != '/') && (a == [] || a[|a| - 1] == '/') ==> r == a + b
  {
    if b != [] && b[0] == '/' then b
    else if a == [] || a[|a| - 1] == '/' then a + b
    else a + "/" + b
  }

  /** `os.path.join(root, name[0:2])`: the shard directory of `name`. */
  function ShardDir(root: string, name: string): (r: string)
    ensures '/' !in name ==> root <= r && |Shard(name)| <= |r| && r[|r| - |Shard(name)|..] == Shard(name)
  {
    Join(root, Shard(name))
  }

  /** `os.path.join(root, name[0:2], name)`: the file path of `name`. */
  function FilePath(root: string, name: string): (r: string)
    ensures '/' !in name ==> ShardDir(root, name) <= r && |name| <= |r| && r[|r| - |name|..] == name
  {
    Join(Join(root, Shard(name)), name)
  }

  /** The shard of a key is its first two hex characters. */
  lemma KeyShard(key: Key)
    ensures Shard(key) == key[..2] && |Shard(key)| == 2
    ensures IsHexDigit(Shard(key)[0]) && IsHexDigit(Shard(key)[1])
    ensures Place(key).shard == key[..2]
  {
  }

  /** For a non-empty name without a slash, the file path is its shard
      directory, a slash and the name, and splitting the path at its last
      slash gives back exactly these two parts. */
  lemma NameFilePath(root: string, name: string)
    requires name != [] && '/' !in name
    ensures FilePath(root, name) == ShardDir(root, name) + "/" + name
    ensures RSplitOnce(FilePath(root, name), '/') == [ShardDir(root, name), name]
  {
    var dir := ShardDir(root, name);
    var shard := Shard(name);
    assert shard[|shard| - 1] == name[|shard| - 1] != '/';
    assert dir[|dir| - 1] == shard[|shard| - 1];
    RSplitOnceOfJoin(dir, '/', name);
  }

  /** For a key the directory component is `root/key[0:2]` and the file
      name is the key. */
  lemma KeyFilePath(root: string, key: Key)
    ensures ShardDir(root, key) == Join(root, key[..2])
    ensures FilePath(root, key) == ShardDir(root, key) + "/" + key
    ensures RSplitOnce(FilePath(root, key), '/') == [ShardDir(root, key), key]
  {
    assert '/' !in key by {
      forall i | 0 <= i < |key| ensures key[i] != '/' {
        assert IsHexDigit(key[i]);
      }
    }
    NameFilePath(root, key);
  }

  /** A sanitised name (no slash) reaches a key's file path only when it is
      that key, so testing the file path of a name for existence tests the
      location of that very name. */
  lemma NamePathIsKeyPath(root: string, name: string, key: Key)
    requires '/' !in name
    requires FilePath(root, name) == FilePath(root, key)
    ensures name == key
  {
    KeyFilePath(root, key);
    if name != [] {
      NameFilePath(root, name);
    }
  }

  /** Two keys with the same file path are the same key. */
  lemma FilePathInjective(root: string, k1: Key, k2: Key)
    requires FilePath(root, k1) == FilePath(root, k2)
    ensures k1 == k2
  {
    KeyFilePath(root, k1);
    NamePathIsKeyPath(root, k1, k2);
  }

  /** For a non-empty root, the file path of the empty name is the root
      directory itself (`os.path.join(root, "", "")` is `root/`). */
  lemma EmptyNameIsRoot(root: string)
    requires root != []
    ensures FilePath(root, "") == Join(root, "") == ShardDir(root, "")
    ensures FilePath(root, "") == root || FilePath(root, "") == root + "/"
  {
  }
}
