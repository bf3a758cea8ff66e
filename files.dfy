/**
 * The open file serveGet reads from (an *os.File behind webdav.Dir): a node
 * of the file system, and a handle whose offset Seek and CopyN move.
 *
 * Which operations of the operating system fail is not observable from the
 * code; a node records it as flags (Stat fails, every Seek fails).
 */
module Files {
  import opened Wrappers
  import opened Utf8

  /** A file or directory, with the failures the operating system reports for it. */
  datatype Node = Node(data: seq<byte>, isDir: bool, statFails: bool, seekFails: bool)

  /** The bytes a copy delivered, and whether it delivered all it was asked for. */
  datatype Transfer = Transfer(bytes: seq<byte>, ok: bool)

  /** io.SeekStart and io.SeekEnd, the two origins serveGet and parseSize use. */
  datatype Whence = SeekStart | SeekEnd

  /**
   * io.CopyN(dst, src, n) from a source holding `src`: nothing for n <= 0,
   * the first n bytes when there are that many, otherwise everything and
   * io.EOF.
   */
  function Take(src: seq<byte>, n: int): (t: Transfer)
    ensures t.ok <==> n <= |src|
    ensures t.bytes <= src
    ensures |t.bytes| == if n <= 0 then 0 else if n <= |src| then n else |src|
  {
    if n <= 0 then Transfer([], true)
    else if n <= |src| then Transfer(src[..n], true)
    else Transfer(src, false)
  }

  /** What reading from offset `pos` yields: nothing at or past the end. */
  function Rest(data: seq<byte>, pos: int): (r: seq<byte>)
    requires 0 <= pos
    ensures |r| == if pos < |data| then |data| - pos else 0
    ensures forall i :: 0 <= i < |r| ==> r[i] == data[pos + i]
  {
    if pos < |data| then data[pos..] else []
  }

  /** The offset Seek(offset, whence) aims at in a file of `size` bytes. */
  function SeekTarget(offset: int, whence: Whence, size: int): int {
    match whence
    case SeekStart => offset
    case SeekEnd => size + offset
  }

  /** An open handle on a node. */
  class File {
    const node: Node
    var pos: int
    var isOpen: bool

    /** OpenFile(name, O_RDONLY): reading starts at offset 0. */
    constructor Open(node: Node)
      ensures this.node == node && pos == 0 && isOpen
    {
      this.node := node;
      pos := 0;
      isOpen := true;
    }

    /** Stat: whether it succeeded and, when it did, whether the node is a directory. */
    method Stat() returns (ok: bool, isDir: bool)
      ensures ok == !node.statFails
      ensures ok ==> isDir == node.isDir
    {
      ok := !node.statFails;
      isDir := ok && node.isDir;
    }

    /**
     * Seek: moves the offset and returns it; a negative target (or a failing
     * node) is an error and leaves the offset where it was. Seeking past
     * the end is allowed.
     */
    method Seek(offset: int, whence: Whence) returns (res: Option<int>)
      modifies this
      ensures var target := SeekTarget(offset, whence, |node.data|);
              if node.seekFails || target < 0 then res == None && pos == old(pos)
              else res == Some(target) && pos == target
      ensures isOpen == old(isOpen)
    {
      var target := SeekTarget(offset, whence, |node.data|);
      if node.seekFails || target < 0 {
        res := None;
      } else {
        pos := target;
        res := Some(target);
      }
    }

    /** io.CopyN from this file: the bytes read from the offset on, which advance it. */
    method CopyN(n: int) returns (t: Transfer)
      requires 0 <= pos
      modifies this
      ensures t == Take(Rest(node.data, old(pos)), n)
      ensures pos == old(pos) + |t.bytes|
      ensures isOpen == old(isOpen)
    {
      t := Take(Rest(node.data, pos), n);
      pos := pos + |t.bytes|;
    }

    /** Close: the handle is no longer open. */
    method Close()
      modifies this
      ensures !isOpen && pos == old(pos)
    {
      isOpen := false;
    }
  }

  /** A file read from offset `start` for `n` bytes delivers exactly data[start..start+n] when it lies inside. */
  lemma TakeInside(data: seq<byte>, start: int, n: int)
    requires 0 <= start && 0 <= n && start + n <= |data|
    ensures Take(Rest(data, start), n) == Transfer(data[start..start + n], true)
  {
    if n > 0 {
      assert Rest(data, start)[..n] == data[start..start + n];
    }
  }
}
