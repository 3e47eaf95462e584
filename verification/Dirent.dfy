/** Buffered directory streams: readdir, telldir, seekdir and rewinddir (dirent/). */
module Dirent {
  import opened Options

  /** struct dirent: a dead entry has inode zero; reclen is its size in the buffer. */
  datatype Entry = Entry(ino: int, off: int, reclen: nat)

  /** What one getdents gives. */
  type Block = seq<Entry>

  // ---------------------------------------------------------------- the directory as a list

  function Flat(blocks: seq<Block>): seq<Entry> {
    if blocks == [] then [] else Flat(blocks[..|blocks| - 1]) + blocks[|blocks| - 1]
  }

  /** The entries a reader gets to see. */
  function Live(es: seq<Entry>): seq<Entry> {
    if es == [] then []
    else (if es[0].ino != 0 then [es[0]] else []) + Live(es[1..])
  }

  predicate HasLive(es: seq<Entry>) {
    exists i :: 0 <= i < |es| && es[i].ino != 0
  }

  /** The live entries at or behind an offset. */
  function LiveFrom(es: seq<Entry>, t: int): seq<Entry> {
    if es == [] then []
    else (if es[0].ino != 0 && es[0].off >= t then [es[0]] else []) + LiveFrom(es[1..], t)
  }

  predicate At(es: seq<Entry>, t: int) {
    exists i :: 0 <= i < |es| && es[i].off == t
  }

  /** The offset belongs to an entry, dead or live, of a block with a live one. */
  predicate Reachable(blocks: seq<Block>, t: int) {
    exists b :: 0 <= b < |blocks| && HasLive(blocks[b]) && At(blocks[b], t)
  }

  predicate Increasing(es: seq<Entry>) {
    forall i, j :: 0 <= i < j < |es| ==> es[i].off < es[j].off
  }

  /** What getdents promises: blocks with something in them, records with a length, and
      offsets that grow through the whole directory. */
  predicate Directory(blocks: seq<Block>) {
    && Increasing(Flat(blocks))
    && (forall b :: 0 <= b < |blocks| ==> blocks[b] != [])
    && (forall b, i :: 0 <= b < |blocks| && 0 <= i < |blocks[b]| ==> blocks[b][i].off >= 0 && blocks[b][i].reclen > 0)
  }

  // ---------------------------------------------------------------- bytes

  function Bytes(es: seq<Entry>): nat {
    if es == [] then 0 else Bytes(es[..|es| - 1]) + es[|es| - 1].reclen
  }

  /** The entry at a byte of the buffer. */
  function EntryAt(buf: Block, at: int): Entry
    requires buf != []
  {
    if at < buf[0].reclen || |buf| == 1 then buf[0] else EntryAt(buf[1..], at - buf[0].reclen)
  }

  predicate Sized(buf: Block) {
    forall i :: 0 <= i < |buf| ==> buf[i].reclen > 0
  }

  lemma {:induction false} BytesFront(es: seq<Entry>)
    requires es != []
    ensures Bytes(es) == es[0].reclen + Bytes(es[1..])
  {
    if |es| > 1 {
      var n := |es| - 1;
      BytesFront(es[..n]);
      assert es[..n][1..] == es[1..][..n - 1];
    }
  }

  lemma {:induction false} BytesGrow(buf: Block, i: nat)
    requires i <= |buf| && Sized(buf)
    ensures Bytes(buf[..i]) <= Bytes(buf) && (Bytes(buf[..i]) < Bytes(buf) <==> i < |buf|)
    decreases |buf| - i
  {
    if i == |buf| {
      assert buf[..i] == buf;
    } else {
      BytesStep(buf, i);
      BytesGrow(buf, i + 1);
    }
  }

  lemma BytesStep(buf: Block, i: nat)
    requires i < |buf|
    ensures Bytes(buf[..i + 1]) == Bytes(buf[..i]) + buf[i].reclen
  {
    assert buf[..i + 1][..i] == buf[..i];
  }

  lemma {:induction false} EntryThere(buf: Block, i: nat)
    requires i < |buf| && Sized(buf)
    ensures EntryAt(buf, Bytes(buf[..i])) == buf[i]
  {
    if i > 0 {
      BytesFront(buf[..i]);
      assert buf[..i][1..] == buf[1..][..i - 1];
      EntryThere(buf[1..], i - 1);
    }
  }

  // ---------------------------------------------------------------- lists

  lemma {:induction false} LiveConcat(a: seq<Entry>, b: seq<Entry>)
    ensures Live(a + b) == Live(a) + Live(b)
  {
    if a == [] {
      assert a + b == b && Live(a) + Live(b) == Live(b);
    } else {
      LiveConcat(a[1..], b);
      assert (a + b)[0] == a[0] && (a + b)[1..] == a[1..] + b;
      hide Live;
      LiveFirst(a);
      LiveFirst(a + b);
      Assoc(if a[0].ino != 0 then [a[0]] else [], Live(a[1..]), Live(b));
    }
  }

  lemma LiveFirst(es: seq<Entry>)
    requires es != []
    ensures Live(es) == (if es[0].ino != 0 then [es[0]] else []) + Live(es[1..])
  {
  }

  lemma {:induction false} LiveEmpty(es: seq<Entry>)
    ensures Live(es) == [] <==> !HasLive(es)
  {
    if es != [] {
      LiveEmpty(es[1..]);
      if HasLive(es) && es[0].ino == 0 {
        var i :| 0 <= i < |es| && es[i].ino != 0;
        assert es[1..][i - 1].ino != 0;
      }
    }
  }

  lemma {:induction false} FlatSplit(blocks: seq<Block>, k: nat)
    requires k <= |blocks|
    ensures Flat(blocks) == Flat(blocks[..k]) + Flat(blocks[k..])
  {
    if k == |blocks| {
      assert blocks[..k] == blocks && blocks[k..] == [];
      assert Flat(blocks) + [] == Flat(blocks);
    } else {
      var n := |blocks| - 1;
      FlatSplit(blocks[..n], k);
      assert blocks[..n][..k] == blocks[..k] && blocks[..n][k..] == blocks[k..][..n - k];
      Assoc(Flat(blocks[..k]), Flat(blocks[k..n]), blocks[n]);
      assert blocks[k..][..n - k] == blocks[k..n] && blocks[k..][n - k] == blocks[n];
    }
  }

  lemma Assoc(a: seq<Entry>, b: seq<Entry>, c: seq<Entry>)
    ensures a + b + c == a + (b + c)
  {
  }

  /** The directory around entry i of block k. */
  lemma FlatAround(blocks: seq<Block>, k: nat, i: nat)
    requires k < |blocks| && i <= |blocks[k]|
    ensures Flat(blocks) == Flat(blocks[..k]) + blocks[k][..i] + (blocks[k][i..] + Flat(blocks[k + 1..]))
  {
    hide Flat;
    FlatSplit(blocks, k + 1);
    FlatFirst(blocks, k);
    var b := blocks[k];
    Assoc(Flat(blocks[..k]), b[..i], b[i..]);
    assert b[..i] + b[i..] == b;
    Assoc(Flat(blocks[..k]) + b[..i], b[i..], Flat(blocks[k + 1..]));
  }

  lemma FlatFirst(blocks: seq<Block>, k: nat)
    requires k < |blocks|
    ensures Flat(blocks[..k + 1]) == Flat(blocks[..k]) + blocks[k]
  {
    assert blocks[..k + 1][..k] == blocks[..k];
  }

  /** Everything in front of an entry has a smaller offset, everything behind a larger. */
  lemma {:induction false} FromHere(a: seq<Entry>, b: seq<Entry>, t: int)
    requires (forall i :: 0 <= i < |a| ==> a[i].off < t) && (forall i :: 0 <= i < |b| ==> b[i].off >= t)
    ensures LiveFrom(a + b, t) == Live(b)
    decreases |a| + |b|
  {
    if a != [] {
      FromHere(a[1..], b, t);
      assert (a + b)[0] == a[0] && (a + b)[1..] == a[1..] + b;
      hide Live;
      assert [] + LiveFrom(a[1..] + b, t) == LiveFrom(a[1..] + b, t);
    } else if b != [] {
      FromHere([], b[1..], t);
      assert a + b == b && [] + b[1..] == b[1..];
    }
  }

  /** The live entries from an offset in the directory on. */
  lemma FromEntry(blocks: seq<Block>, k: nat, i: nat)
    requires Directory(blocks) && k < |blocks| && i < |blocks[k]|
    ensures LiveFrom(Flat(blocks), blocks[k][i].off) == Live(blocks[k][i..]) + Live(Flat(blocks[k + 1..]))
  {
    hide Flat, Live, LiveFrom;
    FlatAround(blocks, k, i);
    var a, b := Flat(blocks[..k]) + blocks[k][..i], blocks[k][i..] + Flat(blocks[k + 1..]);
    var es := Flat(blocks);
    assert es[|a|] == blocks[k][i] by {
      assert b[0] == blocks[k][i];
    }
    assert forall j :: 0 <= j < |a| ==> a[j] == es[j];
    assert forall j :: 0 <= j < |b| ==> b[j] == es[|a| + j];
    FromHere(a, b, blocks[k][i].off);
    LiveConcat(blocks[k][i..], Flat(blocks[k + 1..]));
  }

  lemma {:induction false} FlatAt(blocks: seq<Block>, b: nat, i: nat) returns (n: nat)
    requires b < |blocks| && i < |blocks[b]|
    ensures n < |Flat(blocks)| && Flat(blocks)[n] == blocks[b][i] && n == |Flat(blocks[..b])| + i
  {
    hide Flat;
    FlatAround(blocks, b, i);
    n := |Flat(blocks[..b])| + i;
    assert blocks[b][i..][0] == blocks[b][i];
  }

  /** Entries of an earlier block have smaller offsets. */
  lemma EarlierSmaller(blocks: seq<Block>, b: nat, i: nat, c: nat, j: nat)
    requires Directory(blocks) && b < |blocks| && i < |blocks[b]| && c < |blocks| && j < |blocks[c]|
    requires b < c || (b == c && i < j)
    ensures blocks[b][i].off < blocks[c][j].off
  {
    hide Flat;
    var m := FlatAt(blocks, b, i);
    var n := FlatAt(blocks, c, j);
    if b < c {
      FlatFirst(blocks, b);
      FlatSplit(blocks[..c], b + 1);
      assert blocks[..c][..b + 1] == blocks[..b + 1];
    }
    assert m < n;
  }

  lemma {:induction false} DeadBlocks(blocks: seq<Block>)
    requires forall b :: 0 <= b < |blocks| ==> !HasLive(blocks[b])
    ensures Live(Flat(blocks)) == []
  {
    if blocks != [] {
      var n := |blocks| - 1;
      DeadBlocks(blocks[..n]);
      assert !HasLive(blocks[n]);
      LiveEmpty(blocks[n]);
      LiveConcat(Flat(blocks[..n]), blocks[n]);
    }
  }

  lemma RestRefill(blocks: seq<Block>, p: nat)
    requires p < |blocks|
    ensures Live(Flat(blocks[p..])) == Live(blocks[p][0..]) + Live(Flat(blocks[p + 1..]))
  {
    FlatSplit(blocks[p..], 1);
    assert blocks[p..][..1] == [blocks[p]] && blocks[p..][1..] == blocks[p + 1..];
    assert Flat([blocks[p]]) == [] + blocks[p] by {
      assert [blocks[p]][..0] == [];
    }
    assert [] + blocks[p] == blocks[p] && blocks[p][0..] == blocks[p];
    LiveConcat(blocks[p], Flat(blocks[p + 1..]));
  }

  lemma RestStep(buf: Block, i: nat)
    requires i < |buf|
    ensures Live(buf[i..]) == (if buf[i].ino != 0 then [buf[i]] else []) + Live(buf[i + 1..])
  {
    assert buf[i..][0] == buf[i] && buf[i..][1..] == buf[i + 1..];
  }

  // ---------------------------------------------------------------- the stream

  /** DIR: the buffer of one block, the byte of the next entry in it, and the position of
      the file behind it. */
  class DirStream {
    const blocks: seq<Block>
    var pos: nat        // blocks given out by getdents
    var buf: Block
    var loc: nat
    var size: nat
    ghost var next: nat // the entry at loc

    ghost predicate Shaped()
      reads this
    {
      && Directory(blocks) && pos <= |blocks| && next <= |buf|
      && size == Bytes(buf) && loc == Bytes(buf[..next])
      && (buf != [] ==> pos > 0 && buf == blocks[pos - 1])
    }

    /** Between calls a block in the buffer has a live entry. */
    ghost predicate Valid()
      reads this
    {
      Shaped() && (buf != [] ==> HasLive(buf))
    }

    /** What a reader will still get. */
    ghost function Rest(): seq<Entry>
      requires Shaped()
      reads this
    {
      Live(buf[next..]) + Live(Flat(blocks[pos..]))
    }

    /** opendir. */
    constructor (blocks: seq<Block>)
      requires Directory(blocks)
      ensures Valid() && this.blocks == blocks && Rest() == Live(Flat(blocks))
    {
      this.blocks := blocks;
      pos, buf, loc, size, next := 0, [], 0, 0, 0;
      new;
      assert blocks[0..] == blocks && buf[..0] == [];
      assert [] + Live(Flat(blocks)) == Live(Flat(blocks));
    }

    /** rewinddir. */
    method Rewind()
      requires Shaped()
      modifies this
      ensures Valid() && Rest() == Live(Flat(blocks)) && pos == 0 && buf == []
    {
      pos, buf, loc, size, next := 0, [], 0, 0, 0;
      assert blocks[0..] == blocks && buf[..0] == [];
      assert [] + Live(Flat(blocks)) == Live(Flat(blocks));
    }

    lemma Room()
      requires Shaped()
      ensures Sized(buf) && (loc < size <==> next < |buf|) && loc <= size
      ensures next < |buf| ==> EntryAt(buf, loc) == buf[next] && loc + buf[next].reclen == Bytes(buf[..next + 1])
    {
      forall i | 0 <= i < |buf|
        ensures buf[i].reclen > 0
      {
        assert buf[i] == blocks[pos - 1][i];
      }
      BytesGrow(buf, next);
      if next < |buf| {
        EntryThere(buf, next);
        BytesStep(buf, next);
      }
    }

    /** getdents into a buffer that is used up; false at the end of the directory. */
    method Refill() returns (more: bool)
      requires Shaped() && next == |buf|
      modifies this
      ensures Shaped() && Rest() == old(Rest())
      ensures more == (old(pos) < |blocks|)
      ensures if more then pos == old(pos) + 1 && buf == blocks[pos - 1] && buf != [] && next == 0
              else pos == old(pos) && buf == []
    {
      ghost var was := Flat(blocks[pos..]);
      loc, size := 0, 0;
      more := pos < |blocks|;
      if more {
        RestRefill(blocks, pos);
        assert blocks[pos] != [];
        buf := blocks[pos];
        pos := pos + 1;
        size := Bytes(buf);
      } else {
        buf := [];
      }
      next := 0;
      assert old(buf)[old(next)..] == [] && Live([]) == [] && Bytes(buf[..0]) == 0;
      hide Live, Flat, Directory, Bytes;
      assert [] + Live(was) == Live(was);
      assert !more ==> buf[next..] == [];
    }

    /** One entry of the buffer. */
    method Advance() returns (dp: Entry)
      requires Shaped() && next < |buf|
      modifies this`loc, this`next
      ensures Shaped() && next == old(next) + 1 && dp == buf[old(next)]
      ensures old(Rest()) == (if dp.ino != 0 then [dp] else []) + Rest()
    {
      hide Live, Flat, Directory;
      Room();
      RestStep(buf, next);
      dp := EntryAt(buf, loc);
      loc := loc + dp.reclen;
      next := next + 1;
      Assoc(if dp.ino != 0 then [dp] else [], Live(buf[next..]), Live(Flat(blocks[pos..])));
    }

    /** readdir: the next live entry, whatever dead ones and dead blocks are in between. */
    method Read() returns (r: Option<Entry>)
      requires Valid()
      modifies this
      ensures Valid()
      ensures if r.Some? then old(Rest()) == [r.value] + Rest() && buf != []
              else old(Rest()) == [] && Rest() == [] && pos == |blocks| && buf == []
      ensures old(pos) <= pos && (r.Some? && pos == old(pos) ==> old(next < |buf|))
      ensures forall b :: old(pos) <= b < (if r.Some? then pos - 1 else pos) ==> !HasLive(blocks[b])
    {
      hide Live, Flat, Directory, Bytes;
      while true
        invariant Shaped() && Rest() == old(Rest()) && old(pos) <= pos
        invariant pos == old(pos) ==> buf == old(buf) && old(next) <= next
        invariant pos > old(pos) ==> buf != [] && forall i :: 0 <= i < next ==> buf[i].ino == 0
        invariant forall b :: old(pos) <= b < pos - 1 ==> !HasLive(blocks[b])
        decreases |blocks| - pos, |buf| - next
      {
        Room();
        if loc >= size {
          assert pos > old(pos) ==> !HasLive(blocks[pos - 1]);
          var more := Refill();
          if !more {
            NothingLeft();
            return None;
          }
        }
        var dp := Advance();
        if dp.ino != 0 {
          assert buf[next - 1].ino != 0;
          return Some(dp);
        }
        assert [] + Rest() == Rest();
      }
    }

    lemma NothingLeft()
      requires Shaped() && buf == [] && pos == |blocks|
      ensures Rest() == []
    {
      assert blocks[pos..] == [];
    }
  
    /** telldir inside a buffer: an offset that names the position for good. */
    method Tell() returns (t: Option<int>)
      requires Valid()
      ensures t.Some? <==> next < |buf|
      ensures t.Some? ==> Reachable(blocks, t.value) && LiveFrom(Flat(blocks), t.value) == Rest()
    {
      hide Live, LiveFrom, Flat;
      Room();
      if loc < size {
        t := Some(EntryAt(buf, loc).off);
        FromEntry(blocks, pos - 1, next);
        assert HasLive(blocks[pos - 1]) && At(blocks[pos - 1], t.value);
      } else {
        t := None;
      }
    }

    /** The inner loop of seekdir: from loc to the end of the buffer. */
    method Scan(t: int) returns (found: bool)
      requires Valid() && next < |buf|
      modifies this`loc, this`next
      ensures Valid()
      ensures if found then next < |buf| && buf[next].off == t
              else next == |buf| && forall i :: old(next) <= i < |buf| ==> buf[i].off != t
    {
      hide Live, LiveFrom, Flat, Directory, Bytes;
      while loc < size
        invariant Valid() && old(next) <= next
        invariant forall i :: old(next) <= i < next ==> buf[i].off != t
        decreases |buf| - next
      {
        Room();
        if EntryAt(buf, loc).off == t {
          return true;
        }
        var dp := Advance();
      }
      Room();
      found := false;
    }

    /** The next block with a live entry, from its beginning. */
    method Load() returns (there: bool)
      requires Valid() && next == |buf|
      modifies this
      ensures Valid() && if there then old(pos) < pos && buf != [] && next == 0 else pos == |blocks|
      ensures forall b :: old(pos) <= b < (if there then pos - 1 else pos) ==> !HasLive(blocks[b])
    {
      hide Live, LiveFrom, Flat, Directory, Bytes;
      var e := Read();
      there := e.Some?;
      if there {
        Restart();
      }
    }

    /** Back to the beginning of the buffer. */
    method Restart()
      requires Valid()
      modifies this`loc, this`next
      ensures Valid() && next == 0
    {
      loc, next := 0, 0;
      assert buf[..0] == [];
    }

    /** One look at the buffer, or at the next one when it is used up. */
    method Look(t: int) returns (look: Outcome)
      requires Valid()
      modifies this
      ensures Valid()
      ensures look.Found? ==> next < |buf| && buf[next].off == t
      ensures look.Missed? ==> next == |buf| && t != 0 && !Reachable(blocks[..pos], t)
      ensures look.Missed? && old(next == |buf|) ==> old(pos) < pos
      ensures look.Beyond? && old(next == |buf| && !Reachable(blocks[..pos], t)) ==> !Reachable(blocks, t)
    {
      hide Live, LiveFrom, Flat, Directory, Bytes, Reachable;
      Room();
      ghost var from := pos;
      var there := loc < size;
      if !there {
        there := Load();
        Room();
      }
      if there && EntryAt(buf, loc).off <= t {
        ghost var i := next;
        var found := Scan(t);
        if found {
          return Found;
        }
        ScannedOut(blocks, pos - 1, i, t);
        return Missed;
      }
      if old(next == |buf| && !Reachable(blocks[..pos], t)) {
        if there {
          PastIt(blocks, from, pos - 1, t);
        } else {
          AllDead(blocks, from, t);
        }
      }
      look := Beyond;
    }

    /** seekdir: succeeds exactly for offset zero and for the offsets of entries in blocks
        with a live entry, from every state of the buffer; then the reader goes on with the
        live entries from that offset on.  The directory is read from the start once at most. */
    method Seek(t: int) returns (ok: bool, rewinds: nat)
      requires Valid()
      modifies this
      ensures Valid()
      ensures ok <==> t == 0 || Reachable(blocks, t)
      ensures ok ==> Rest() == LiveFrom(Flat(blocks), t)
      ensures rewinds <= 1
    {
      hide Live, LiveFrom, Flat, Directory, Bytes;
      rewinds := 0;
      Room();
      if loc >= size || EntryAt(buf, loc).off > t {
        Restart();
      }
      var rewind := true;
      while true
        invariant Valid()
        invariant rewinds == 0 || (rewinds == 1 && !rewind)
        invariant !rewind ==> next == |buf| && t != 0 && !Reachable(blocks[..pos], t)
        decreases rewind, |blocks| - pos
      {
        var look := Look(t);
        if look.Found? {
          FromEntry(blocks, pos - 1, next);
          assert At(blocks[pos - 1], t);
          return true, rewinds;
        } else if look.Missed? {
          rewind := false;
        } else if !rewind {
          return false, rewinds;
        } else {
          rewind := false;
          rewinds := rewinds + 1;
          Rewind();
          if t == 0 {
            FromStart(blocks);
            return true, rewinds;
          }
        }
      }
    }
  }

  /** What one look at a buffer tells seekdir. */
  datatype Outcome = Found | Missed | Beyond

  /** A buffer searched from an entry that is not behind t: t is not there nor before. */
  lemma ScannedOut(blocks: seq<Block>, p: nat, i: nat, t: int)
    requires Directory(blocks) && p < |blocks| && i < |blocks[p]| && blocks[p][i].off <= t
    requires forall j :: i <= j < |blocks[p]| ==> blocks[p][j].off != t
    ensures t != 0 && !Reachable(blocks[..p + 1], t)
  {
    hide Flat;
    if Reachable(blocks[..p + 1], t) {
      var b :| 0 <= b < p + 1 && At(blocks[..p + 1][b], t);
      var e := blocks[..p + 1][b];
      assert At(e, t) && e == blocks[b];
      var j :| 0 <= j < |e| && e[j].off == t;
      EarlierSmaller(blocks, b, j, p, i);
    }
  }

  /** Only dead blocks between what was searched and a block behind t. */
  lemma PastIt(blocks: seq<Block>, from: nat, p: nat, t: int)
    requires Directory(blocks) && from <= p < |blocks| && blocks[p] != [] && blocks[p][0].off > t
    requires !Reachable(blocks[..from], t) && forall b :: from <= b < p ==> !HasLive(blocks[b])
    ensures !Reachable(blocks, t)
  {
    hide Flat;
    forall b | p <= b < |blocks|
      ensures !At(blocks[b], t)
    {
      forall j | 0 <= j < |blocks[b]|
        ensures blocks[b][j].off > t
      {
        if b > p || j > 0 {
          EarlierSmaller(blocks, p, 0, b, j);
        }
      }
    }
    NotBefore(blocks, from, t);
  }

  lemma NotBefore(blocks: seq<Block>, from: nat, t: int)
    requires from <= |blocks| && !Reachable(blocks[..from], t)
    ensures forall b :: 0 <= b < from && HasLive(blocks[b]) ==> !At(blocks[b], t)
  {
    forall b | 0 <= b < from && HasLive(blocks[b])
      ensures !At(blocks[b], t)
    {
      assert blocks[..from][b] == blocks[b];
    }
  }

  lemma AllDead(blocks: seq<Block>, from: nat, t: int)
    requires from <= |blocks| && !Reachable(blocks[..from], t)
    requires forall b :: from <= b < |blocks| ==> !HasLive(blocks[b])
    ensures !Reachable(blocks, t)
  {
    NotBefore(blocks, from, t);
  }

  lemma {:induction false} FlatNonneg(blocks: seq<Block>)
    requires forall b, i :: 0 <= b < |blocks| && 0 <= i < |blocks[b]| ==> blocks[b][i].off >= 0
    ensures forall i :: 0 <= i < |Flat(blocks)| ==> Flat(blocks)[i].off >= 0
  {
    if blocks != [] {
      FlatNonneg(blocks[..|blocks| - 1]);
    }
  }

  lemma FromStart(blocks: seq<Block>)
    requires Directory(blocks)
    ensures LiveFrom(Flat(blocks), 0) == Live(Flat(blocks))
  {
    FlatNonneg(blocks);
    hide Flat, Live, LiveFrom;
    FromHere([], Flat(blocks), 0);
    assert [] + Flat(blocks) == Flat(blocks);
  }

  /** Telling a position inside a buffer, reading on and seeking back restores it. */
  method Excursion(d: DirStream, n: nat) returns (ok: bool)
    requires d.Valid() && d.next < |d.buf|
    modifies d
    ensures d.Valid() && ok && d.Rest() == old(d.Rest())
  {
    hide Live, Flat, LiveFrom, Bytes;
    var t := d.Tell();
    for k := 0 to n
      invariant d.Valid()
    {
      var e := d.Read();
    }
    var rewinds;
    ok, rewinds := d.Seek(t.value);
  }
}
