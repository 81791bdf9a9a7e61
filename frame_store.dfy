/**
 * `df_store`: merge a freshly fetched batch of records into the frame kept in
 * a feather file, write the result back and return it. The file is an
 * optional frame held by a `FeatherFile` object (None: no file yet).
 *
 * On an index value present both in the batch and in the file the row from
 * the FILE is kept: the batch comes first in the concatenation and the last
 * duplicate survives.
 */
module FrameStore {
  import opened Outcomes
  import opened Frames

  /** The rows a missing file contributes: none. */
  function Loaded<V>(file: Option<Frame<V>>): Frame<V> {
    if file.Some? then file.value else []
  }

  /** A file that exists holds no index value twice. */
  predicate ValidFile<V>(file: Option<Frame<V>>) {
    file.Some? ==> UniqueIndex(file.value)
  }

  /**
   * `df_store` as written: duplicates are dropped only when a file already
   * exists, so a first write stores a batch with repeated ids as it is.
   */
  function DfStoreAsWritten<V(==)>(data: Frame<V>, file: Option<Frame<V>>): (r: Result<Frame<V>>)
    ensures r.Err? <==> data == [] && file.None?
    ensures r.Err? ==> r.error == EmptyFrame
  {
    var df := if data != [] then Some(data) else None;
    var merged :=
      if file.None? then df
      else if df.Some? then Some(KeepLast(df.value + file.value))
      else file;
    if merged.None? then Err(EmptyFrame) else Ok(merged.value)
  }

  /** A first write of a batch that repeats an id stores both rows. */
  lemma AsWrittenStoresDuplicates()
    ensures var batch := [Row(7, 1), Row(7, 2)];
      DfStoreAsWritten(batch, None) == Ok(batch) && !UniqueIndex(batch)
  {
    var batch := [Row(7, 1), Row(7, 2)];
    assert batch[0].index == batch[1].index;
  }

  /**
   * `df_store` with duplicates dropped on every write, the first included.
   * This is the merge the rest of the model uses.
   */
  function Merged<V(==)>(data: Frame<V>, file: Option<Frame<V>>): (r: Result<Frame<V>>)
    ensures r.Err? <==> data == [] && file.None?
    ensures r.Err? ==> r.error == EmptyFrame
  {
    if file.None? then (if data != [] then Ok(KeepLast(data)) else Err(EmptyFrame))
    else if data != [] then Ok(KeepLast(data + file.value))
    else Ok(file.value)
  }

  /** Once a file exists the correction changes nothing. */
  lemma AsWrittenAgreesOnceStored<V>(data: Frame<V>, file: Option<Frame<V>>)
    requires file.Some?
    ensures DfStoreAsWritten(data, file) == Merged(data, file)
  {
  }

  /** The merged frame as both rows and keys. */
  lemma MergedFrame<V>(data: Frame<V>, file: Option<Frame<V>>)
    requires ValidFile(file)
    ensures Merged(data, file).Ok? ==> Merged(data, file).value == KeepLast(data + Loaded(file))
  {
    if file.Some? && data == [] {
      KeepLastOfUnique(file.value);
      assert data + file.value == file.value;
    } else if file.None? {
      assert data + [] == data;
    }
  }

  /**
   * The merge holds no index value twice, its keys are those of the batch and
   * of the file together, and its map view is the batch's overridden by the
   * file's: a stored row wins over a fetched one, a key on one side only keeps
   * that side's value (for the batch, its last row).
   */
  lemma MergedContents<V>(data: Frame<V>, file: Option<Frame<V>>)
    requires ValidFile(file)
    requires Merged(data, file).Ok?
    ensures UniqueIndex(Merged(data, file).value)
    ensures Indexes(Merged(data, file).value) == Indexes(data) + Indexes(Loaded(file))
    ensures AsMap(Merged(data, file).value) == AsMap(data) + AsMap(Loaded(file))
  {
    MergedFrame(data, file);
    KeepLastSpec(data + Loaded(file));
    IndexesAppend(data, Loaded(file));
    AsMapAppend(data, Loaded(file));
  }

  /** On a key both fetched and stored, the stored record is the one kept. */
  lemma StoredWins<V>(data: Frame<V>, stored: Frame<V>, k: int)
    requires UniqueIndex(stored)
    requires k in Indexes(data) && k in Indexes(stored)
    ensures Merged(data, Some(stored)).Ok?
    ensures k in AsMap(Merged(data, Some(stored)).value) && k in AsMap(stored)
    ensures AsMap(Merged(data, Some(stored)).value)[k] == AsMap(stored)[k]
  {
    MergedContents(data, Some(stored));
    AsMapKeys(stored);
  }

  /** An empty batch returns the stored frame unchanged; with no file it is an error. */
  lemma EmptyBatch<V>(file: Option<Frame<V>>)
    ensures file.Some? ==> Merged([], file) == Ok(file.value)
    ensures file.None? ==> Merged([], file) == Err(EmptyFrame)
  {
  }

  /** Merging the same batch a second time changes nothing. */
  lemma MergeIdempotent<V>(data: Frame<V>, file: Option<Frame<V>>)
    requires ValidFile(file)
    requires Merged(data, file).Ok?
    ensures Merged(data, Some(Merged(data, file).value)) == Merged(data, file)
  {
    var once := Merged(data, file).value;
    MergedContents(data, file);
    if data != [] {
      KeepLastAbsorbs(data, once);
      KeepLastOfUnique(once);
    }
  }

  /** The feather file of one record kind. */
  class FeatherFile<V(==)> {
    /** The frame last written, or None while no file exists. */
    var contents: Option<Frame<V>>

    ghost predicate Valid()
      reads this
    {
      ValidFile(contents)
    }

    constructor (initial: Option<Frame<V>>)
      requires ValidFile(initial)
      ensures Valid() && contents == initial
    {
      contents := initial;
    }

    /**
     * `df_store(fname, items, key_field)`: the frame returned is the one
     * written; when there is nothing to store the file is left alone.
     */
    method Store(items: seq<V>, key: V -> int) returns (r: Result<Frame<V>>)
      requires Valid()
      modifies this
      ensures Valid()
      ensures r == Merged(FromRecords(items, key), old(contents))
      ensures r.Ok? ==> contents == Some(r.value)
      ensures r.Err? ==> contents == old(contents)
    {
      var data := FromRecords(items, key);
      var df: Option<Frame<V>> := None;
      if data != [] {
        df := Some(data);
      }
      if contents.Some? {
        var loaded := contents.value;
        if df.Some? {
          df := Some(KeepLast(df.value + loaded));
        } else {
          df := Some(loaded);
        }
      } else if df.Some? {
        df := Some(KeepLast(df.value));
      }
      if df.None? {
        return Err(EmptyFrame);
      }
      KeepLastSpec(if contents.Some? && data != [] then data + contents.value else data);
      contents := df;
      r := Ok(df.value);
    }
  }
}
