/**
 * The body of `run`: for every item row of the item query, in order,
 * gather its fields, creators, tags, collections and files, merge them
 * into one record by successive dictionary updates, and write the record
 * to `info.yaml` in the item's target directory. An item that raises stops
 * the whole run; the items before it have been written.
 */
module Assembler {
  import opened Common
  import opened PosixPath
  import opened Fields
  import opened Creators
  import opened TagsCollections
  import opened CitationKey
  import opened Attachments

  /** One row of the item query: `itemID, typeName, key, dateAdded, dateModified, clientDateModified`. */
  datatype ItemRow = ItemRow(itemID: int, typeName: string, key: string,
                             dateAdded: string, dateModified: string, clientDateModified: string)

  /** An item row together with the rows of the queries `run` makes for it. */
  datatype ItemInput = ItemInput(row: ItemRow, fieldRows: seq<FieldRow>, creatorRows: seq<CreatorRow>,
                                 tagRows: seq<string>, collectionRows: seq<string>,
                                 attachmentRows: seq<AttachmentRow>)

  /** What one item produces: its directory, the `info.yaml` written there, and the attachments copied. */
  datatype Export = Export(targetDir: string, infoPath: string, record: map<string, Value>, copies: seq<CopyJob>)

  /**
   * Why an item stops the run: in verbose mode the record must have a
   * title, and an item without a primary document has no target directory.
   */
  datatype RunError = MissingTitle(itemID: int) | NoPrimaryFile(itemID: int)

  const InfoFile: string := "info.yaml"

  /** The field dictionary with its values stored as text. */
  function TextMap(fields: map<string, string>): (m: map<string, Value>)
    ensures m.Keys == fields.Keys
    ensures forall k :: k in m ==> m[k] == Text(fields[k])
  {
    map k | k in fields :: Text(fields[k])
  }

  /** The item's reference: a citation key recorded in its "extra" field, or else its Zotero key. */
  function ItemRef(row: ItemRow, fields: map<string, string>): string
  {
    CitationRef(if "extra" in fields then Some(fields["extra"]) else None, row.key)
  }

  /** The dictionary the record starts from. */
  function BaseRecord(row: ItemRow, ref: string): map<string, Value>
  {
    map["ref" := Text(ref),
        "type" := Text(Translate(TranslatedTypes, row.typeName)),
        "created" := Text(row.dateAdded),
        "modified" := Text(row.dateModified),
        "modified.client" := Text(row.clientDateModified)]
  }

  /**
   * The record of `run`: the base dictionary updated, one `dict.update`
   * after the other, with the fields, the creators, the tags, the
   * collections, the files and once more the reference.
   */
  function Record(input: ItemInput, files: Files): map<string, Value>
  {
    var fields := FieldMap(input.fieldRows);
    var ref := ItemRef(input.row, fields);
    BaseRecord(input.row, ref) + TextMap(fields) + CreatorMap(input.creatorRows)
    + map["tags" := Names(input.tagRows)] + map["project" := Names(input.collectionRows)]
    + map["files" := Names(files.names)] + map["ref" := Text(ref)]
  }

  /** The outcome of one item. */
  function ExportOf(input: ItemInput, zotDir: string, outDir: string, verbose: bool, existing: set<string>)
    : Result<Export, RunError>
  {
    var fields := FieldMap(input.fieldRows);
    if verbose && "title" !in fields then Failure(MissingTitle(input.row.itemID))
    else
      match FilesOf(input.attachmentRows, zotDir, outDir, existing)
      case Failure(_) => Failure(NoPrimaryFile(input.row.itemID))
      case Success(files) =>
        Success(Export(files.targetDir, Join(files.targetDir, InfoFile), Record(input, files), files.copies))
  }

  /** The body of the loop of `run` for one item. */
  method ExportItem(input: ItemInput, zotDir: string, outDir: string, verbose: bool, existing: set<string>)
    returns (r: Result<Export, RunError>)
    ensures r == ExportOf(input, zotDir, outDir, verbose, existing)
  {
    var row := input.row;
    var itemType := Translate(TranslatedTypes, row.typeName);
    var fields := GetFields(input.fieldRows);
    if verbose && "title" !in fields {
      // reading `fields["title"]` raises
      return Failure(MissingTitle(row.itemID));
    }
    var extra := if "extra" in fields then Some(fields["extra"]) else None;
    var ref := CitationRef(extra, row.key);

    var item := map["ref" := Text(ref), "type" := Text(itemType), "created" := Text(row.dateAdded),
                    "modified" := Text(row.dateModified), "modified.client" := Text(row.clientDateModified)];
    item := item + TextMap(fields);
    var creators := GetCreators(input.creatorRows);
    item := item + creators;
    var tags := GetTags(input.tagRows);
    assert tags == map["tags" := Names(input.tagRows)];
    item := item + tags;
    var collections := GetCollections(input.collectionRows);
    item := item + collections;
    var result := GetFiles(input.attachmentRows, zotDir, outDir, existing);
    if result.Failure? {
      return Failure(NoPrimaryFile(row.itemID));
    }
    var files := result.value;
    item := item + map["files" := Names(files.names)];
    item := item + map["ref" := Text(ref)];
    assert collections == map["project" := Names(input.collectionRows)];
    r := Success(Export(files.targetDir, Join(files.targetDir, InfoFile), item, files.copies));
  }

  /** The outcome `ExportOf` gives each item, in order. */
  function Outcomes(items: seq<ItemInput>, zotDir: string, outDir: string, verbose: bool, existing: set<string>)
    : (outcomes: seq<Result<Export, RunError>>)
    ensures |outcomes| == |items|
  {
    if items == [] then []
    else [ExportOf(items[0], zotDir, outDir, verbose, existing)] + Outcomes(items[1..], zotDir, outDir, verbose, existing)
  }

  /** The outcome at position `k` is that of item `k`. */
  lemma {:induction false} OutcomesAt(items: seq<ItemInput>, zotDir: string, outDir: string, verbose: bool,
                                      existing: set<string>, k: nat)
    requires k < |items|
    ensures Outcomes(items, zotDir, outDir, verbose, existing)[k] == ExportOf(items[k], zotDir, outDir, verbose, existing)
  {
    if k > 0 {
      OutcomesAt(items[1..], zotDir, outDir, verbose, existing, k - 1);
    }
  }

  /**
   * The exports of the items from the first one on, and the error that
   * stopped the run, if any, given the outcome of exporting each item.
   */
  function RunWith(items: seq<ItemInput>, outcomes: seq<Result<Export, RunError>>)
    : (seq<Export>, Option<RunError>)
    requires |outcomes| == |items|
  {
    if items == [] then ([], None)
    else if items[0].row.typeName in ExcludedTypes then RunWith(items[1..], outcomes[1..])
    else
      match outcomes[0]
      case Failure(e) => ([], Some(e))
      case Success(x) =>
        var rest := RunWith(items[1..], outcomes[1..]);
        ([x] + rest.0, rest.1)
  }

  /**
   * The loop of `run` over the item rows in item-ID order. The exclusion
   * of notes and attachments is the item query's `NOT IN` filter.
   */
  method Run(items: seq<ItemInput>, zotDir: string, outDir: string, verbose: bool, existing: set<string>)
    returns (exports: seq<Export>, error: Option<RunError>)
    ensures (exports, error) == RunWith(items, Outcomes(items, zotDir, outDir, verbose, existing))
  {
    ghost var outcomes := Outcomes(items, zotDir, outDir, verbose, existing);
    ghost var spec := RunWith(items, outcomes);
    exports := [];
    assert items[0..] == items && outcomes[0..] == outcomes;
    for i := 0 to |items|
      invariant spec.0 == exports + RunWith(items[i..], outcomes[i..]).0
      invariant spec.1 == RunWith(items[i..], outcomes[i..]).1
    {
      ghost var rest := RunWith(items[i + 1..], outcomes[i + 1..]);
      RunWithStep(items, outcomes, i);
      if items[i].row.typeName in ExcludedTypes {
        continue;
      }
      var r := ExportNext(items, i, zotDir, outDir, verbose, existing);
      if r.Failure? {
        assert exports + [] == exports;
        return exports, Some(r.error);
      }
      assert (exports + [r.value]) + rest.0 == exports + ([r.value] + rest.0);
      exports := exports + [r.value];
    }
    assert exports + [] == exports;
    error := None;
  }

  /** Exports item `i`, whose outcome is the `i`-th of the run's outcomes. */
  method ExportNext(items: seq<ItemInput>, i: nat, zotDir: string, outDir: string, verbose: bool, existing: set<string>)
    returns (r: Result<Export, RunError>)
    requires i < |items|
    ensures r == Outcomes(items, zotDir, outDir, verbose, existing)[i]
  {
    r := ExportItem(items[i], zotDir, outDir, verbose, existing);
    OutcomesAt(items, zotDir, outDir, verbose, existing, i);
  }

  /** How the outcome from item `i` on follows from the outcome from item `i + 1` on. */
  lemma RunWithStep(items: seq<ItemInput>, outcomes: seq<Result<Export, RunError>>, i: nat)
    requires |outcomes| == |items| && i < |items|
    ensures var rest := RunWith(items[i + 1..], outcomes[i + 1..]);
      RunWith(items[i..], outcomes[i..])
      == if items[i].row.typeName in ExcludedTypes then rest
         else match outcomes[i]
              case Failure(e) => ([], Some(e))
              case Success(x) => ([x] + rest.0, rest.1)
  {
    assert items[i..][0] == items[i] && items[i..][1..] == items[i + 1..];
    assert outcomes[i..][0] == outcomes[i] && outcomes[i..][1..] == outcomes[i + 1..];
  }

  /** The keys every record has, whatever the item's rows. */
  const FixedKeys: set<string> := {"ref", "type", "created", "modified", "modified.client", "tags", "project", "files"}

  /**
   * What the record holds: the reference, tags, collections and files
   * always, under their own keys; every creator entry unless under one of
   * those keys; and every field unless a creator entry or one of those keys.
   */
  lemma RecordSpec(input: ItemInput, files: Files)
    ensures var record := Record(input, files);
      var fields := FieldMap(input.fieldRows);
      var creators := CreatorMap(input.creatorRows);
      && "ref" in record && "tags" in record && "project" in record && "files" in record
      && record["ref"] == Text(ItemRef(input.row, fields))
      && record["tags"] == Names(input.tagRows)
      && record["project"] == Names(input.collectionRows)
      && record["files"] == Names(files.names)
      && (forall k :: k in creators && k !in {"tags", "project", "files", "ref"} ==>
            k in record && record[k] == creators[k])
      && (forall k :: k in fields && k !in creators && k !in {"tags", "project", "files", "ref"} ==>
            k in record && record[k] == Text(fields[k]))
  {
    var fields := FieldMap(input.fieldRows);
    var ref := ItemRef(input.row, fields);
    RecordOfParts(BaseRecord(input.row, ref), TextMap(fields), CreatorMap(input.creatorRows),
                  Names(input.tagRows), Names(input.collectionRows), Names(files.names), ref);
  }

  /**
   * The record's keys: the five it starts with, "tags", "project" and
   * "files", and every field and creator key; its "type" is the translated
   * item type unless a field or creator entry is called "type".
   */
  lemma RecordKeysSpec(input: ItemInput, files: Files)
    ensures var record := Record(input, files);
      var fields := FieldMap(input.fieldRows);
      var creators := CreatorMap(input.creatorRows);
      && record.Keys == FixedKeys + fields.Keys + creators.Keys
      && ("type" !in fields && "type" !in creators ==>
            "type" in record && record["type"] == Text(Translate(TranslatedTypes, input.row.typeName)))
  {
    var fields := FieldMap(input.fieldRows);
    var ref := ItemRef(input.row, fields);
    KeysOfParts(BaseRecord(input.row, ref), TextMap(fields), CreatorMap(input.creatorRows),
                Names(input.tagRows), Names(input.collectionRows), Names(files.names), ref,
                Text(Translate(TranslatedTypes, input.row.typeName)));
  }

  /** The keys of the record `run` builds, in terms of its parts. */
  lemma KeysOfParts(base: map<string, Value>, fields: map<string, Value>, creators: map<string, Value>,
                    tags: Value, project: Value, files: Value, ref: string, itemType: Value)
    requires base.Keys == {"ref", "type", "created", "modified", "modified.client"}
    requires base["type"] == itemType
    ensures var record := base + fields + creators + map["tags" := tags] + map["project" := project]
                          + map["files" := files] + map["ref" := Text(ref)];
      && record.Keys == FixedKeys + fields.Keys + creators.Keys
      && ("type" !in fields && "type" !in creators ==> "type" in record && record["type"] == itemType)
  {
    RecordOfParts(base, fields, creators, tags, project, files, ref);
  }

  /** The record `run` builds, in terms of its parts. */
  lemma RecordOfParts(base: map<string, Value>, fields: map<string, Value>, creators: map<string, Value>,
                      tags: Value, project: Value, files: Value, ref: string)
    ensures var record := base + fields + creators + map["tags" := tags] + map["project" := project]
                          + map["files" := files] + map["ref" := Text(ref)];
      && record.Keys == base.Keys + fields.Keys + creators.Keys + {"tags", "project", "files", "ref"}
      && record["ref"] == Text(ref)
      && record["tags"] == tags
      && record["project"] == project
      && record["files"] == files
      && (forall k :: k in creators && k !in {"tags", "project", "files", "ref"} ==> record[k] == creators[k])
      && (forall k :: k in fields && k !in creators && k !in {"tags", "project", "files", "ref"} ==>
            record[k] == fields[k])
      && (forall k :: k in base && k !in fields && k !in creators && k !in {"tags", "project", "files", "ref"} ==>
            record[k] == base[k])
  {
  }

  /**
   * An item fails exactly when verbose mode finds no title, or when none
   * of its attachments is a primary document; the missing title is the
   * error reported first.
   */
  lemma ExportFailureSpec(input: ItemInput, zotDir: string, outDir: string, verbose: bool, existing: set<string>)
    ensures var r := ExportOf(input, zotDir, outDir, verbose, existing);
      var titled := "title" in FieldMap(input.fieldRows);
      && (r.Failure? <==> (verbose && !titled) || PrimaryRows(input.attachmentRows) == [])
      && (r.Failure? ==> (r.error.MissingTitle? <==> verbose && !titled))
      && (r.Failure? ==> r.error.itemID == input.row.itemID)
  {
    FilesOfSpec(input.attachmentRows, zotDir, outDir, existing);
  }

  /**
   * An item with a title (or exported quietly) and a primary document is
   * exported: its record, built from its files, goes to `info.yaml` in the
   * directory named after the parent directory of its last primary document.
   */
  lemma ExportSuccessSpec(input: ItemInput, zotDir: string, outDir: string, verbose: bool, existing: set<string>)
    requires !verbose || "title" in FieldMap(input.fieldRows)
    requires PrimaryRows(input.attachmentRows) != []
    ensures ExportOf(input, zotDir, outDir, verbose, existing).Success?
    ensures var x := ExportOf(input, zotDir, outDir, verbose, existing).value;
      var primary := PrimaryRows(input.attachmentRows);
      && x.targetDir == TargetDir(outDir, primary[|primary| - 1].path)
      && x.infoPath == Join(x.targetDir, InfoFile)
      && Basename(x.infoPath) == InfoFile
      && x.record == Record(input, FilesOf(input.attachmentRows, zotDir, outDir, existing).value)
      && x.copies == FilesOf(input.attachmentRows, zotDir, outDir, existing).value.copies
  {
    var primary := PrimaryRows(input.attachmentRows);
    var f := FilesOf(input.attachmentRows, zotDir, outDir, existing);
    assert f.Success? && f.value.targetDir == TargetDir(outDir, primary[|primary| - 1].path);
    var files := f.value;
    assert ExportOf(input, zotDir, outDir, verbose, existing)
        == Success(Export(files.targetDir, Join(files.targetDir, InfoFile), Record(input, files), files.copies));
    BasenameOfJoin(files.targetDir, InfoFile);
  }

  /**
   * The items the item query returns: every item that is neither a note nor
   * an attachment, and no other.
   */
  function IncludedItems(items: seq<ItemInput>): (included: seq<ItemInput>)
    ensures |included| <= |items|
    ensures forall k :: 0 <= k < |included| ==> included[k].row.typeName !in ExcludedTypes
    ensures forall x :: x in included <==> x in items && x.row.typeName !in ExcludedTypes
  {
    if items == [] then []
    else if items[0].row.typeName in ExcludedTypes then IncludedItems(items[1..])
    else [items[0]] + IncludedItems(items[1..])
  }

  /** The filter keeps the order of the items: filtering two runs of rows filters each in turn. */
  lemma {:induction false} IncludedItemsAppend(a: seq<ItemInput>, b: seq<ItemInput>)
    ensures IncludedItems(a + b) == IncludedItems(a) + IncludedItems(b)
    decreases |a|
  {
    if a == [] {
      assert a + b == b;
    } else {
      assert (a + b)[0] == a[0] && (a + b)[1..] == a[1..] + b;
      IncludedItemsAppend(a[1..], b);
    }
  }

  /** The outcomes of the items the item query returns, in order. */
  function Kept(items: seq<ItemInput>, outcomes: seq<Result<Export, RunError>>): (kept: seq<Result<Export, RunError>>)
    requires |outcomes| == |items|
    ensures |kept| <= |items|
  {
    if items == [] then []
    else if items[0].row.typeName in ExcludedTypes then Kept(items[1..], outcomes[1..])
    else [outcomes[0]] + Kept(items[1..], outcomes[1..])
  }

  /** The kept outcomes are the outcomes of the included items. */
  lemma {:induction false} KeptOutcomes(items: seq<ItemInput>, zotDir: string, outDir: string, verbose: bool,
                                        existing: set<string>)
    ensures Kept(items, Outcomes(items, zotDir, outDir, verbose, existing))
         == Outcomes(IncludedItems(items), zotDir, outDir, verbose, existing)
  {
    if items != [] {
      KeptOutcomes(items[1..], zotDir, outDir, verbose, existing);
      var rest := IncludedItems(items[1..]);
      if items[0].row.typeName !in ExcludedTypes {
        assert ([items[0]] + rest)[0] == items[0] && ([items[0]] + rest)[1..] == rest;
      }
    }
  }

  /**
   * The run exports the kept items one by one, in order, until the first
   * one that fails; that one's error ends the run, and without one every
   * kept item is exported.
   */
  lemma {:induction false} RunWithSpec(items: seq<ItemInput>, outcomes: seq<Result<Export, RunError>>)
    requires |outcomes| == |items|
    ensures var (exports, error) := RunWith(items, outcomes);
      var kept := Kept(items, outcomes);
      && |exports| <= |kept|
      && (forall k :: 0 <= k < |exports| ==> kept[k] == Success(exports[k]))
      && (error.None? ==> |exports| == |kept|)
      && (error.Some? ==> |exports| < |kept| && kept[|exports|] == Failure(error.value))
    decreases |items|
  {
    if items != [] {
      RunWithSpec(items[1..], outcomes[1..]);
    }
  }

  /** Without verbose mode a missing title never stops the run; only an item without a primary document does. */
  lemma QuietRunStopsOnlyWithoutPrimary(items: seq<ItemInput>, zotDir: string, outDir: string, existing: set<string>)
    ensures var (exports, error) := RunWith(items, Outcomes(items, zotDir, outDir, false, existing));
      error.Some? ==> error.value.NoPrimaryFile?
  {
    var outcomes := Outcomes(items, zotDir, outDir, false, existing);
    RunWithSpec(items, outcomes);
    KeptOutcomes(items, zotDir, outDir, false, existing);
    var (exports, error) := RunWith(items, outcomes);
    if error.Some? {
      var included := IncludedItems(items);
      OutcomesAt(included, zotDir, outDir, false, existing, |exports|);
      ExportFailureSpec(included[|exports|], zotDir, outDir, false, existing);
    }
  }
}
