/**
 * The selection step of `getFromCloudStorage` in index.js: walk the value
 * the bucket listing resolves with, take the first item of each element
 * (`file[0]`) and keep, in order, those whose metadata content type is
 * "application/json". An element without a first item makes the walk
 * throw, which rejects the load.
 */
module Bucket {
  import opened Wrappers

  /** A stored object: its name and its metadata content type, if set. */
  datatype StorageObject = StorageObject(name: string, contentType: Option<string>)

  /** Why a load is rejected. */
  datatype LoadError =
    | ListingFailed(message: string)   // the bucket listing itself failed
    | NoObjectInEntry(index: nat)      // element `index` of the listing has no first item

  const JSON_CONTENT_TYPE: string := "application/json"

  predicate IsJson(o: StorageObject) {
    o.contentType == Some(JSON_CONTENT_TYPE)
  }

  /** The files the walk selects from `listing`, or the error it stops with. */
  function JsonFiles(listing: seq<seq<StorageObject>>): Result<seq<StorageObject>, LoadError>
    decreases |listing|
  {
    if |listing| == 0 then Success([])
    else
      match JsonFiles(listing[..|listing| - 1])
      case Failure(e) => Failure(e)
      case Success(selected) =>
        var entry := listing[|listing| - 1];
        if |entry| == 0 then Failure(NoObjectInEntry(|listing| - 1))
        else if IsJson(entry[0]) then Success(selected + [entry[0]])
        else Success(selected)
  }

  /** Once the walk has failed on a prefix, it fails the same way on the whole listing. */
  lemma {:induction false} JsonFilesFailureStays(listing: seq<seq<StorageObject>>, j: nat)
    requires j <= |listing| && JsonFiles(listing[..j]).Failure?
    ensures JsonFiles(listing) == JsonFiles(listing[..j])
    decreases |listing|
  {
    if j < |listing| {
      var prefix := listing[..|listing| - 1];
      assert prefix[..j] == listing[..j];
      JsonFilesFailureStays(prefix, j);
    } else {
      assert listing[..j] == listing;
    }
  }

  /** The walk fails exactly at the first element without an item, and succeeds when there is none. */
  lemma {:induction false} JsonFilesFailure(listing: seq<seq<StorageObject>>)
    ensures JsonFiles(listing).Success? <==> forall i :: 0 <= i < |listing| ==> |listing[i]| > 0
    ensures JsonFiles(listing).Failure? ==>
      && JsonFiles(listing).error.NoObjectInEntry?
      && var i := JsonFiles(listing).error.index;
         i < |listing| && |listing[i]| == 0 && forall j :: 0 <= j < i ==> |listing[j]| > 0
    decreases |listing|
  {
    if |listing| > 0 {
      var prefix := listing[..|listing| - 1];
      JsonFilesFailure(prefix);
      assert forall i :: 0 <= i < |prefix| ==> prefix[i] == listing[i];
    }
  }

  /** Selection commutes with concatenation of listings: the order of the listing is kept. */
  lemma {:induction false} JsonFilesAppend(a: seq<seq<StorageObject>>, b: seq<seq<StorageObject>>)
    requires JsonFiles(a).Success? && JsonFiles(b).Success?
    ensures JsonFiles(a + b) == Success(JsonFiles(a).value + JsonFiles(b).value)
    decreases |b|
  {
    if |b| == 0 {
      assert a + b == a;
      assert JsonFiles(a).value + JsonFiles(b).value == JsonFiles(a).value;
    } else {
      var prefix, last := b[..|b| - 1], b[|b| - 1];
      JsonFilesFailure(b);
      JsonFilesFailure(prefix);
      assert forall i :: 0 <= i < |prefix| ==> prefix[i] == b[i];
      assert JsonFiles(prefix).Success? && |last| > 0;
      JsonFilesAppend(a, prefix);
      var added := if IsJson(last[0]) then [last[0]] else [];
      assert JsonFiles(prefix).value + [] == JsonFiles(prefix).value;
      assert JsonFiles(a + prefix).value + [] == JsonFiles(a + prefix).value;
      assert JsonFiles(b) == Success(JsonFiles(prefix).value + added);
      var ab := a + b;
      assert ab[..|ab| - 1] == a + prefix && ab[|ab| - 1] == last;
      assert JsonFiles(ab) == Success(JsonFiles(a + prefix).value + added);
      assert JsonFiles(a).value + JsonFiles(prefix).value + added
          == JsonFiles(a).value + (JsonFiles(prefix).value + added);
    }
  }

  /** A one-element listing selects its first item exactly when that item is JSON. */
  lemma JsonFilesSingle(entry: seq<StorageObject>)
    requires |entry| > 0
    ensures JsonFiles([entry]) == Success(if IsJson(entry[0]) then [entry[0]] else [])
  {
    assert [entry][..0] == [];
    assert JsonFiles([entry][..0]) == Success([]);
    assert [] + [entry[0]] == [entry[0]];
  }

  /** Exactly the JSON first items are selected: every selected file is one, and every one is selected. */
  lemma {:induction false} JsonFilesMembers(listing: seq<seq<StorageObject>>, o: StorageObject)
    requires JsonFiles(listing).Success?
    ensures o in JsonFiles(listing).value
        <==> IsJson(o) && exists i :: 0 <= i < |listing| && |listing[i]| > 0 && listing[i][0] == o
    decreases |listing|
  {
    JsonFilesFailure(listing);
    if |listing| > 0 {
      var prefix := listing[..|listing| - 1];
      JsonFilesFailure(prefix);
      JsonFilesMembers(prefix, o);
      if exists i :: 0 <= i < |listing| && |listing[i]| > 0 && listing[i][0] == o {
        var i :| 0 <= i < |listing| && |listing[i]| > 0 && listing[i][0] == o;
        if i < |prefix| { assert prefix[i] == listing[i]; }
      }
      if exists i :: 0 <= i < |prefix| && |prefix[i]| > 0 && prefix[i][0] == o {
        var i :| 0 <= i < |prefix| && |prefix[i]| > 0 && prefix[i][0] == o;
        assert listing[i] == prefix[i];
      }
    }
  }

  /**
   * Only the first item of an element is looked at: an element holding
   * two files contributes at most the first, and an element holding none
   * rejects the load.
   */
  lemma OnlyFirstItemSelected(f1: StorageObject, f2: StorageObject)
    ensures JsonFiles([[f1, f2]]) == Success(if IsJson(f1) then [f1] else [])
    ensures JsonFiles([[]]) == Failure(NoObjectInEntry(0))
  {
    JsonFilesSingle([f1, f2]);
    var empty: seq<seq<StorageObject>> := [[]];
    assert empty[..0] == [];
  }

  /**
   * The `files.forEach` loop that pushes every JSON file into
   * `filesToProcess`; an element without a first item stops it with an error.
   */
  method SelectJsonFiles(listing: seq<seq<StorageObject>>) returns (r: Result<seq<StorageObject>, LoadError>)
    ensures r == JsonFiles(listing)
  {
    var filesToProcess: seq<StorageObject> := [];
    var i := 0;
    while i < |listing|
      invariant 0 <= i <= |listing|
      invariant JsonFiles(listing[..i]) == Success(filesToProcess)
    {
      var file := listing[i];
      assert listing[..i + 1][..i] == listing[..i];
      if |file| == 0 {
        JsonFilesFailureStays(listing, i + 1);
        return Failure(NoObjectInEntry(i));
      }
      if IsJson(file[0]) {
        filesToProcess := filesToProcess + [file[0]];
      }
      i := i + 1;
    }
    assert listing[..|listing|] == listing;
    r := Success(filesToProcess);
  }
}
