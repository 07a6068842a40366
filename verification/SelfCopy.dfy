/** Copying a part of what is already written to the place after it, where it is known to belong. */
module SelfCopy {
  import opened BitStream

  /** Copying forward byte by byte repeats a text that overlaps its own copy. */
  method CopyForward(dest: array<byte>, from: nat, to: nat, n: nat, ghost chunk: seq<byte>)
    requires from < to && to + n <= dest.Length == |chunk| && dest[..to] == chunk[..to]
    requires chunk[from..from + n] == chunk[to..to + n]
    modifies dest
    ensures dest[..to + n] == chunk[..to + n]
  {
    for m := 0 to n
      invariant dest[..to + m] == chunk[..to + m]
    {
      assert dest[from + m] == dest[..to + m][from + m] == chunk[from + m];
      assert chunk[from..from + n][m] == chunk[to..to + n][m];
      dest[to + m] := dest[from + m];
      assert dest[..to + m + 1] == dest[..to + m] + [dest[to + m]];
    }
  }

  /** Copying a text that does not overlap its copy. */
  method CopyBlock(dest: array<byte>, from: nat, to: nat, n: nat, ghost chunk: seq<byte>)
    requires from + n <= to && to + n <= dest.Length == |chunk| && dest[..to] == chunk[..to]
    requires chunk[from..from + n] == chunk[to..to + n]
    modifies dest
    ensures dest[..to + n] == chunk[..to + n]
  {
    forall m | 0 <= m < n {
      dest[to + m] := dest[from + m];
    }
    forall m | 0 <= m < to + n
      ensures dest[m] == chunk[m]
    {
      if m >= to {
        assert chunk[from..from + n][m - to] == chunk[to..to + n][m - to];
        assert old(dest[..to])[from + (m - to)] == chunk[from + (m - to)];
      } else {
        assert old(dest[..to])[m] == chunk[m];
      }
    }
  }
}
