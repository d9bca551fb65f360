/** The interned string table (src/elfrc/container_build.c, `string_table_intern`). */
module StringTables {
  import opened Bytes
  import opened ByteBuffers
  import opened Manifests

  /** The distinct names, in order of first occurrence. */
  function Distinct(names: seq<seq<byte>>): (r: seq<seq<byte>>)
    ensures forall x :: x in names <==> x in r
    ensures |r| <= |names|
  {
    if names == [] then []
    else
      var d := Distinct(names[..|names| - 1]);
      var last := names[|names| - 1];
      assert names == names[..|names| - 1] + [last];
      if last in d then d else d + [last]
  }

  /** The string region: each name once, with its NUL. */
  function TableBytes(ds: seq<seq<byte>>): seq<byte> {
    if ds == [] then [] else TableBytes(ds[..|ds| - 1]) + ds[|ds| - 1] + [0]
  }

  /** The region grows by the name and one NUL, nothing else. */
  lemma TableOfOneMore(ds: seq<seq<byte>>, x: seq<byte>)
    ensures TableBytes([]) == []
    ensures TableBytes(ds + [x]) == TableBytes(ds) + x + [0]
  {
    assert (ds + [x])[..|ds|] == ds;
  }

  /** Where the first string equal to `name` starts inside the region. */
  function OffsetIn(ds: seq<seq<byte>>, name: seq<byte>): nat
    requires name in ds
  {
    var front := ds[..|ds| - 1];
    if name in front then OffsetIn(front, name) else |TableBytes(front)|
  }

  predicate NoRepeats(ds: seq<seq<byte>>) {
    forall i, j :: 0 <= i < j < |ds| ==> ds[i] != ds[j]
  }

  lemma {:induction false} DistinctNoRepeats(names: seq<seq<byte>>)
    ensures NoRepeats(Distinct(names))
  {
    if names == [] {
    } else {
      DistinctNoRepeats(names[..|names| - 1]);
    }
  }

  lemma FirstIndexOfPrefix(names: seq<seq<byte>>, k: nat, name: seq<byte>)
    requires k <= |names| && name in names[..k]
    ensures FirstIndex(names, name) == FirstIndex(names[..k], name) < k
  {
    var a, b := FirstIndex(names, name), FirstIndex(names[..k], name);
    var i :| 0 <= i < k && names[..k][i] == name;
    assert names[i] == name;
    assert forall m :: 0 <= m < k ==> names[..k][m] == names[m];
  }

  /** Names appear in the table in the order in which they first occur. */
  lemma {:induction false} DistinctInFirstOccurrenceOrder(names: seq<seq<byte>>, i: nat, j: nat)
    requires i < j < |Distinct(names)|
    ensures FirstIndex(names, Distinct(names)[i]) < FirstIndex(names, Distinct(names)[j])
    decreases |names|
  {
    var k := |names| - 1;
    var d := Distinct(names[..k]);
    var x, y := Distinct(names)[i], Distinct(names)[j];
    assert x in d;
    FirstIndexOfPrefix(names, k, x);
    if j < |d| {
      DistinctInFirstOccurrenceOrder(names[..k], i, j);
      assert y in d;
      FirstIndexOfPrefix(names, k, y);
    } else {
      assert y !in names[..k];
      assert forall m :: 0 <= m < k ==> names[..k][m] == names[m];
    }
  }

  lemma {:induction false} OffsetInExtended(ds: seq<seq<byte>>, x: seq<byte>, name: seq<byte>)
    requires name in ds
    ensures OffsetIn(ds + [x], name) == OffsetIn(ds, name)
  {
    assert (ds + [x])[..|ds|] == ds;
  }

  lemma OffsetOfNew(ds: seq<seq<byte>>, x: seq<byte>)
    requires x !in ds
    ensures OffsetIn(ds + [x], x) == |TableBytes(ds)|
    ensures TableBytes(ds + [x]) == TableBytes(ds) + x + [0]
  {
    assert (ds + [x])[..|ds|] == ds;
  }

  /** Each name decodes, at its offset, as a NUL-terminated string. */
  lemma {:induction false} NameAtOffset(ds: seq<seq<byte>>, name: seq<byte>)
    requires name in ds
    ensures CStringIs(TableBytes(ds), OffsetIn(ds, name), name)
  {
    var front, last := ds[..|ds| - 1], ds[|ds| - 1];
    assert ds == front + [last];
    if name in front {
      NameAtOffset(front, name);
      var t := TableBytes(front);
      assert TableBytes(ds) == [] + t + (last + [0]);
      PlacedAfter([], t, last + [0]);
      PlacedTrans(TableBytes(ds), 0, t, OffsetIn(front, name), name + [0]);
    } else {
      assert name == last;
      assert TableBytes(ds) == TableBytes(front) + (last + [0]) + [];
      PlacedAfter(TableBytes(front), last + [0], []);
    }
  }

  /** Offsets of different names differ. */
  lemma {:induction false} OffsetsDiffer(ds: seq<seq<byte>>, x: seq<byte>, y: seq<byte>)
    requires x in ds && y in ds
    requires 0 !in x && 0 !in y
    ensures OffsetIn(ds, x) == OffsetIn(ds, y) <==> x == y
  {
    NameAtOffset(ds, x);
    NameAtOffset(ds, y);
    if OffsetIn(ds, x) == OffsetIn(ds, y) {
      CStringUnique(TableBytes(ds), OffsetIn(ds, x), x, y);
    }
  }

  lemma {:induction false} OffsetInTable(ds: seq<seq<byte>>, name: seq<byte>)
    requires name in ds
    ensures OffsetIn(ds, name) + |name| + 1 <= |TableBytes(ds)|
  {
    NameAtOffset(ds, name);
  }

  /** The offset the program gives the i-th of `names` in a table that starts at `base`. */
  function NameOffset(names: seq<seq<byte>>, base: nat, i: nat): nat
    requires i < |names|
  {
    base + OffsetIn(Distinct(names), names[i])
  }

  /** Resources share a name offset exactly when they share their name. */
  lemma OffsetsEqualIffNamesEqual(names: seq<seq<byte>>, base: nat, i: nat, j: nat)
    requires i < |names| && j < |names| && 0 !in names[i] && 0 !in names[j]
    ensures NameOffset(names, base, i) == NameOffset(names, base, j) <==> names[i] == names[j]
  {
    hide Distinct, OffsetIn;
    assert names[i] in Distinct(names) && names[j] in Distinct(names);
    OffsetsDiffer(Distinct(names), names[i], names[j]);
  }

  lemma DistinctSnoc(names: seq<seq<byte>>, k: nat)
    requires k < |names|
    ensures names[..k + 1][..k] == names[..k]
    ensures Distinct(names[..k + 1])
         == if names[k] in Distinct(names[..k]) then Distinct(names[..k]) else Distinct(names[..k]) + [names[k]]
  {
    assert names[..k + 1][..k] == names[..k];
    assert names[..k + 1][k] == names[k];
  }

  /** Adding names later never moves an offset already given. */
  lemma NameOffsetStable(names: seq<seq<byte>>, base: nat, i: nat, k: nat)
    requires i < k < |names|
    ensures NameOffset(names[..k], base, i) == NameOffset(names[..k + 1], base, i)
  {
    DistinctSnoc(names, k);
    var d := Distinct(names[..k]);
    assert names[..k][i] == names[..k + 1][i] == names[i];
    assert names[i] in names[..k];
    if names[k] !in d {
      OffsetInExtended(d, names[k], names[i]);
    }
  }

  /** Prefixes have shorter tables. */
  lemma {:induction false} TableGrows(names: seq<seq<byte>>, k: nat)
    requires k <= |names|
    ensures |TableBytes(Distinct(names[..k]))| <= |TableBytes(Distinct(names))|
    decreases |names|
  {
    if k < |names| {
      var n := |names| - 1;
      TableGrows(names[..n], k);
      assert names[..n][..k] == names[..k];
      DistinctSnoc(names, n);
      assert names[..n + 1] == names;
      if names[n] !in Distinct(names[..n]) {
        OffsetOfNew(Distinct(names[..n]), names[n]);
      }
    } else {
      assert names[..k] == names;
    }
  }

  /** What interning one more name does to the table. */
  lemma Interned(names: seq<seq<byte>>, name: seq<byte>)
    ensures name in Distinct(names) ==> Distinct(names + [name]) == Distinct(names)
    ensures name !in Distinct(names) ==>
      && Distinct(names + [name]) == Distinct(names) + [name]
      && TableBytes(Distinct(names + [name])) == TableBytes(Distinct(names)) + (name + [0])
      && OffsetIn(Distinct(names + [name]), name) == |TableBytes(Distinct(names))|
    ensures forall x :: x in Distinct(names) ==>
      && x in Distinct(names + [name])
      && OffsetIn(Distinct(names + [name]), x) == OffsetIn(Distinct(names), x)
  {
    var all := names + [name];
    DistinctSnoc(all, |names|);
    assert all[..|names|] == names && all[..|names| + 1] == all;
    if name !in Distinct(names) {
      OffsetOfNew(Distinct(names), name);
      assert TableBytes(Distinct(names)) + name + [0] == TableBytes(Distinct(names)) + (name + [0]);
      forall x | x in Distinct(names)
        ensures OffsetIn(Distinct(all), x) == OffsetIn(Distinct(names), x)
      {
        OffsetInExtended(Distinct(names), name, x);
      }
    }
  }

  // ---------- the program ----------

  datatype StringEntry = StringEntry(name: seq<byte>, offset: u32)

  class StringTable {
    var entries: seq<StringEntry>

    /** The entries are the distinct names, each with its offset. */
    ghost predicate Holds(names: seq<seq<byte>>, base: nat)
      reads this
    {
      && |entries| == |Distinct(names)|
      && forall k :: 0 <= k < |entries| ==>
           && entries[k].name == Distinct(names)[k]
           && entries[k].name in Distinct(names)
           && entries[k].offset == base + OffsetIn(Distinct(names), entries[k].name)
    }

    constructor ()
      ensures entries == []
    {
      entries := [];
    }

    /** `string_table_intern` */
    method Intern(buf: ByteBuf, tableBase: u32, name: seq<byte>, ghost names: seq<seq<byte>>) returns (offset: u32)
      requires buf.Valid() && this !in buf.Repr
      requires Holds(names, tableBase)
      requires buf.len == tableBase + |TableBytes(Distinct(names))|
      requires buf.len < TWO32
      requires name !in Distinct(names) ==> buf.len + |name| + 1 < TWO32
      modifies this, buf.Repr
      ensures buf.Valid() && fresh(buf.Repr - old(buf.Repr))
      ensures Holds(names + [name], tableBase)
      ensures offset == NameOffset(names + [name], tableBase, |names|)
      ensures buf.Contents() == old(buf.Contents())
           + if name in Distinct(names) then [] else name + [0]
      ensures buf.len == tableBase + |TableBytes(Distinct(names + [name]))|
    {
      hide Distinct, OffsetIn, TableBytes;
      Interned(names, name);
      for i := 0 to |entries|
        invariant forall k :: 0 <= k < i ==> entries[k].name != name
      {
        if entries[i].name == name {
          assert buf.Contents() == buf.Contents() + [];
          return entries[i].offset;
        }
      }
      offset := (tableBase + (buf.len - tableBase)) % TWO32;
      var _ := buf.Append(name + [0]);
      entries := entries + [StringEntry(name, offset)];
    }
  }
}
