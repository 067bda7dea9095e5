/** The growable byte buffer of the request reader: an array of which the first `size` bytes are the contents. */
module ByteBuffer {

  /** `bufcpy` of `n` bytes. */
  method Copy(to: array<char>, start: nat, from: array<char>, n: nat)
    requires to != from && start + n <= to.Length && n <= from.Length
    modifies to
    ensures to[..] == old(to[..start]) + from[..n] + old(to[start + n..])
  {
    var i := 0;
    while i < n
      invariant 0 <= i <= n
      invariant to[..] == old(to[..start]) + from[..i] + old(to[start + i..])
    {
      assert from[..i + 1] == from[..i] + [from[i]];
      to[start + i] := from[i];
      i := i + 1;
    }
  }

  /** `strcpy_norewind`: copies up to the NUL in `from`, and tells where it stopped. */
  method CopyString(to: array<char>, from: array<char>) returns (end: nat)
    requires to != from && exists i :: 0 <= i < from.Length && i < to.Length && from[i] == '\0'
    modifies to
    ensures end < from.Length && end < to.Length && from[end] == '\0'
    ensures to[..end + 1] == from[..end + 1]
    ensures forall i :: 0 <= i < end ==> from[i] != '\0'
  {
    ghost var stop :| 0 <= stop < from.Length && stop < to.Length && from[stop] == '\0';
    end := 0;
    while from[end] != '\0'
      invariant 0 <= end <= stop
      invariant forall i :: 0 <= i < end ==> to[i] == from[i] && from[i] != '\0'
      decreases stop - end
    {
      to[end] := from[end];
      end := end + 1;
    }
    to[end] := '\0';
  }

  class Buffer {
    var cells: array?<char>
    var size: nat

    ghost predicate Valid()
      reads this
    {
      if cells == null then size == 0 else size <= cells.Length
    }

    ghost function Contents(): (s: string)
      requires Valid()
      reads this, Cells()
      ensures |s| == size
    {
      if cells == null then [] else cells[..size]
    }

    ghost function Cells(): set<object>
      reads this
    {
      if cells == null then {} else {cells}
    }

    constructor ()
      ensures Valid() && Contents() == [] && cells == null
    {
      cells, size := null, 0;
    }

    constructor FromBytes(bytes: string)
      ensures Valid() && Contents() == bytes && fresh(Cells())
    {
      cells, size := null, 0;
      new;
      if bytes != [] {
        cells := new char[|bytes|](i requires 0 <= i < |bytes| => bytes[i]);
        size := |bytes|;
      }
    }

    /** The `std::string` made of `c_str()`. */
    method CStr() returns (s: string)
      requires Valid()
      ensures s <= Contents() && '\0' !in s
      ensures |s| < size ==> Contents()[|s|] == '\0'
    {
      s := [];
      var i := 0;
      while i < size && cells[i] != '\0'
        invariant 0 <= i <= size && s == Contents()[..i] && '\0' !in s
      {
        s := s + [cells[i]];
        i := i + 1;
      }
    }

    method Reset()
      modifies this
      ensures Valid() && Contents() == [] && cells == null
    {
      cells, size := null, 0;
    }

    /** `operator+=`. */
    method Append(b: Buffer)
      requires Valid() && b.Valid() && b != this
      modifies this
      ensures Valid() && fresh(Cells()) && cells != null
      ensures Contents() == old(Contents()) + old(b.Contents())
    {
      var work := new char[size + b.size];
      if cells != null {
        Copy(work, 0, cells, size);
      }
      if b.cells != null {
        Copy(work, size, b.cells, b.size);
      }
      cells := work;
      size := size + b.size;
    }

    /** `operator+=` of a string. */
    method AppendString(s: string)
      requires Valid()
      modifies this
      ensures Valid() && Contents() == old(Contents()) + s
      ensures cells == old(cells) || fresh(cells)
    {
      if |s| == 0 {
        return;
      }
      var work := new char[size + |s|];
      if cells != null {
        Copy(work, 0, cells, size);
      }
      var bytes := new char[|s|](i requires 0 <= i < |s| => s[i]);
      assert bytes[..] == s;
      Copy(work, size, bytes, |s|);
      cells := work;
      size := size + |s|;
    }

    /** `operator=`. */
    method Assign(b: Buffer)
      requires b.Valid() && b != this
      modifies this
      ensures Valid() && fresh(Cells()) && cells != null && Contents() == old(b.Contents())
    {
      Reset();
      size := b.size;
      cells := new char[size];
      if b.cells != null {
        Copy(cells, 0, b.cells, size);
      }
    }

    method Affect(bytes: array<char>, n: nat)
      requires n <= bytes.Length
      modifies this
      ensures Valid() && cells == bytes && Contents() == bytes[..n]
    {
      Reset();
      cells, size := bytes, n;
    }

    /** Growing keeps the bytes there are; the new ones are arbitrary. */
    method Resize(n: nat)
      requires Valid()
      modifies this
      ensures Valid() && size == n && cells != null
      ensures n <= old(size) ==> Contents() == old(Contents())[..n]
      ensures n >= old(size) ==> Contents()[..old(size)] == old(Contents())
      ensures if old(cells) != null && n <= old(size) then cells == old(cells) else fresh(cells)
    {
      if cells != null {
        if n > size {
          var from := cells;
          cells := new char[n];
          Copy(cells, 0, from, size);
        }
      } else {
        cells := new char[n];
      }
      size := n;
    }

    method RemoveFront(nbytes: nat) returns (ok: bool)
      requires Valid()
      modifies this, Cells()
      ensures Valid() && cells == old(cells) && ok == (cells != null)
      ensures Contents() == old(Contents())[if nbytes < old(size) then nbytes else old(size)..]
    {
      if cells == null {
        return false;
      }
      var n := if nbytes > size then size else nbytes;
      ShiftLeft(n);
      size := size - n;
      ok := true;
    }

    /** The copy loop that moves the bytes after the first `n` to the front. */
    method ShiftLeft(n: nat)
      requires Valid() && cells != null && n <= size
      modifies cells
      ensures cells[..size - n] == old(cells[n..size])
    {
      var to, from := 0, n;
      while from < size
        invariant n <= from <= size && to == from - n
        invariant forall i :: 0 <= i < to ==> cells[i] == old(cells[i + n])
        invariant forall i :: from <= i < size ==> cells[i] == old(cells[i])
      {
        cells[to] := cells[from];
        to, from := to + 1, from + 1;
      }
    }
  }
}
