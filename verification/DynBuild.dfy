/** Writing a record: entries and names go into reserved places of the planned size, data after
    them. */
module DynBuild {
  import opened Arith
  import opened Basics
  import opened DynValues
  import opened DynFormat
  import opened DynRecord

  /** The first columns of a record. */
  ghost function Front(r: Record, i: nat): Record
    requires i <= |r.cols| == |r.offs|
  {
    Record(r.fmt, r.size, r.cols[..i], r.offs[..i])
  }

  lemma EntriesNext(r: Record, i: nat)
    requires i < |r.cols| == |r.offs| && forall k :: 0 <= k < |r.cols| ==> r.cols[k].typ >= 1
    ensures Flat(Entries(Front(r, i + 1))) == Flat(Entries(Front(r, i))) + Entry(r, i)
  {
    var e, f := Entries(Front(r, i + 1)), Entries(Front(r, i));
    forall k | 0 <= k < i ensures e[k] == f[k] {
      SameEntry(Front(r, i + 1), Front(r, i), k);
    }
    assert e[..i] == f;
    SameEntry(Front(r, i + 1), r, i);
  }

  lemma SameEntry(r: Record, t: Record, k: nat)
    requires k < |r.cols| == |r.offs| && k < |t.cols| == |t.offs| && r.cols[..k] == t.cols[..k]
    requires r.cols[k] == t.cols[k]
    requires r.cols[k].typ >= 1 && r.offs[k] == t.offs[k] && r.fmt == t.fmt && r.size == t.size
    ensures Entry(r, k) == Entry(t, k)
  {
  }

  /** The header part of a record under construction. `target` is the record it is planned for, of
      which the first `done` columns are written. */
  class Builder {
    const fmt: Format
    const offsetSize: nat
    const columnCount: nat
    const header: array<Byte>
    const nmpool: array<Byte>
    var entry: nat
    var name: nat
    ghost const target: Record
    ghost var done: nat

    ghost predicate Planned()
    {
      && DynRecord.Valid(target) && fmt == target.fmt && offsetSize == target.size
      && columnCount == |target.cols| && header.Length == columnCount * (2 + offsetSize)
      && nmpool.Length == |NamePool(target.cols)| && header != nmpool
    }

    ghost predicate Valid()
      reads this, header, nmpool
    {
      && Planned() && done <= |target.cols|
      && entry == done * (2 + offsetSize) && name == |NamePool(target.cols[..done])|
      && entry <= header.Length && name <= nmpool.Length
      && header[..entry] == Flat(Entries(Front(target, done))) && nmpool[..name] == NamePool(target.cols[..done])
    }

    constructor (fmt: Format, offsetSize: nat, columnCount: nat, nmpoolSize: nat, ghost target: Record)
      requires DynRecord.Valid(target) && fmt == target.fmt && offsetSize == target.size
      requires columnCount == |target.cols| && nmpoolSize == |NamePool(target.cols)|
      ensures Valid() && this.fmt == fmt && this.target == target && done == 0 && fresh(header) && fresh(nmpool)
    {
      this.fmt, this.offsetSize, this.columnCount, this.target := fmt, offsetSize, columnCount, target;
      header := new Byte[columnCount * (2 + offsetSize)];
      nmpool := new Byte[nmpoolSize];
      entry, name, done := 0, 0, 0;
    }

    /** put_header_entry for the next planned column. It fails only for offsets that do not fit,
        which planned ones do. */
    method PutEntry(key: Key, typ: nat, offset: nat) returns (failed: bool)
      requires Valid() && done < |target.cols| && key == target.cols[done].key && typ == target.cols[done].typ
      requires offset == target.offs[done]
      modifies `entry, `name, `done, header, nmpool
      ensures !failed && Valid() && done == old(done) + 1
    {
      hide DataPool, NamePool, Flat, Entries, Entry, LE, OffsetLimit, OffsetBytes, MaxOffsetSize;
      NextFits(this);
      var field := if key.Num? then key.number else name;
      var store := TypeOffsetStore(fmt, offsetSize, typ, offset);
      if store.None? {
        return true;
      }
      var bytes := LE(field, 2) + store.value;
      WriteAt(header, entry, bytes);
      if key.Name? {
        WriteAt(nmpool, name, key.text);
        name := name + |key.text|;
      }
      entry := entry + (2 + offsetSize);
      done := done + 1;
      failed := false;
    }

    /** The whole record, once everything planned is written. */
    method Finish(data: seq<Byte>) returns (str: seq<Byte>)
      requires Valid() && done == |target.cols| && data == DataPool(target.cols)
      ensures str == Packed(target)
    {
      hide DataPool, NamePool, Flat, Entries, LE;
      var fixed := FixedHeader();
      assert target.cols[..done] == target.cols && Front(target, done) == target;
      EntriesSize(target);
      Whole(header[..], entry);
      Whole(nmpool[..], name);
      str := fixed + header[..] + nmpool[..] + data;
    }

    /** set_fixed_hdr: flags, number of columns and size of the name pool. */
    method FixedHeader() returns (s: seq<Byte>)
      requires Planned()
      ensures 1 <= offsetSize <= 4 && (fmt == Named ==> offsetSize >= 2)
      ensures s == Fixed(fmt, offsetSize, |target.cols|, |NamePool(target.cols)|)
    {
      hide DataPool, NamePool, Flat, Entries, LE;
      SizeRange(target);
      s := if fmt == Numeric then [offsetSize - 1] + LE(columnCount, 2)
      else [offsetSize - 2 + 4] + LE(columnCount, 2) + LE(nmpool.Length, 2);
    }
  }

  lemma Whole(s: seq<Byte>, n: nat)
    ensures n == |s| ==> s[..n] == s
  {
  }

  method WriteAt(a: array<Byte>, at: nat, bytes: seq<Byte>)
    requires at + |bytes| <= a.Length
    modifies a
    ensures a[..at + |bytes|] == old(a[..at]) + bytes
  {
    forall i | 0 <= i < |bytes| {
      a[at + i] := bytes[i];
    }
  }

  lemma NextFits(b: Builder)
    requires b.Valid() && b.done < |b.target.cols|
    ensures var (t, d) := (b.target, b.done);
      && |t.offs| == |t.cols| && ColumnOk(b.fmt, t.cols[d]) && t.offs[d] < OffsetLimit(b.fmt, b.offsetSize)
      && b.entry + (2 + b.offsetSize) == (d + 1) * (2 + b.offsetSize) <= b.header.Length
      && Entry(t, d)
         == LE(if t.cols[d].key.Num? then t.cols[d].key.number else b.name, 2)
            + LE(t.offs[d] * TypeCount(b.fmt) + (t.cols[d].typ - 1), b.offsetSize)
      && Flat(Entries(Front(t, d + 1))) == Flat(Entries(Front(t, d))) + Entry(t, d)
      && NamePool(t.cols[..d + 1]) == NamePool(t.cols[..d]) + NameOf(t.cols[d].key)
      && |NamePool(t.cols[..d + 1])| <= b.nmpool.Length
  {
    hide DataPool, NamePool, Flat, LE, Sorted;
    var (t, d, size) := (b.target, b.done, 2 + b.offsetSize);
    assert ColumnOk(b.fmt, t.cols[d]);
    PoolPrefix(t.cols, d + 1);
    MulAdd(d, 1, size);
    MulLe(d + 1, |t.cols|, size);
    EntriesNext(t, d);
    PoolsNext(t.cols, d);
  }
}
