/** `parse_invoices_from_images`: each selected image goes through an opaque step that
    either yields a parsed value, which is appended, or raises, in which case the file
    is skipped and the loop goes on with the next one. */
module Extraction {
  import opened Options
  import ImageFiles
  import Fences
  import PyStr

  /** The `try` body for one file, as a function of the file name. `respond` stands for
      opening the image, calling the vision model and reading the reply text; `parse`
      for `json.loads`. `None` from either is an exception, which the loop catches. A
      file yields a value only when the model call succeeded, and the value is what
      the parser returned for the cleaned reply, kept as it is. */
  function Step<V>(respond: string -> Option<string>, parse: string -> Option<V>): (step: string -> Option<V>)
    ensures forall filename :: step(filename).Some? ==>
              && respond(filename).Some?
              && exists t :: && parse(t) == step(filename)
                             && !PyStr.Contains(t, Fences.Fence) && !PyStr.Contains(t, Fences.JsonFence)
                             && |t| <= |respond(filename).value|
  {
    filename =>
      match respond(filename)
      case None => None
      case Some(text) => parse(Fences.Clean(text))
  }

  /** What one file adds to the result. */
  function Contribution<V>(step: string -> Option<V>, filename: string): (r: seq<V>)
    ensures |r| <= 1
    ensures r == [] <==> step(filename).None?
    ensures r != [] ==> r[0] == step(filename).value
  {
    match step(filename)
    case None => []
    case Some(v) => [v]
  }

  /** The contributions of the files in turn, which is what the loop accumulates. */
  function Collected<V>(files: seq<string>, step: string -> Option<V>): (r: seq<V>)
    ensures |r| <= |files|
  {
    if files == [] then []
    else Collected(files[..|files| - 1], step) + Contribution(step, files[|files| - 1])
  }

  /** One more file adds its contribution at the end. */
  lemma CollectedPrefix<V>(files: seq<string>, i: nat, step: string -> Option<V>)
    requires i < |files|
    ensures Collected(files[..i + 1], step) == Collected(files[..i], step) + Contribution(step, files[i])
  {
    assert files[..i + 1][..i] == files[..i];
  }

  /** The files' contributions come out in file order: a batch is the concatenation of
      its parts' results. */
  lemma {:induction false} CollectedConcat<V>(a: seq<string>, b: seq<string>, step: string -> Option<V>)
    ensures Collected(a + b, step) == Collected(a, step) + Collected(b, step)
    decreases |b|
  {
    if b == [] {
      assert a + b == a;
    } else {
      var b' := b[..|b| - 1];
      assert (a + b)[..|a + b| - 1] == a + b';
      CollectedConcat(a, b', step);
    }
  }

  /** A failing file adds nothing and does not stop the files after it. */
  lemma FailureSkipped<V>(before: seq<string>, filename: string, after: seq<string>, step: string -> Option<V>)
    requires step(filename).None?
    ensures Collected(before + [filename] + after, step) == Collected(before, step) + Collected(after, step)
  {
    CollectedConcat(before + [filename], after, step);
    CollectedConcat(before, [filename], step);
  }

  /** A succeeding file adds its value, unchanged, between the results of the files
      before and after it. */
  lemma SuccessAppended<V>(before: seq<string>, filename: string, after: seq<string>, step: string -> Option<V>)
    requires step(filename).Some?
    ensures Collected(before + [filename] + after, step)
            == Collected(before, step) + [step(filename).value] + Collected(after, step)
  {
    CollectedConcat(before + [filename], after, step);
    CollectedConcat(before, [filename], step);
  }

  /** A value is in the result exactly when some file's step yielded it. */
  lemma {:induction false} CollectedMembers<V>(files: seq<string>, step: string -> Option<V>, v: V)
    ensures v in Collected(files, step) <==> exists i :: 0 <= i < |files| && step(files[i]) == Some(v)
    decreases |files|
  {
    if files != [] {
      var init, last := files[..|files| - 1], files[|files| - 1];
      CollectedMembers(init, step, v);
      assert forall i :: 0 <= i < |init| ==> init[i] == files[i];
      if exists i :: 0 <= i < |files| && step(files[i]) == Some(v) {
        var i :| 0 <= i < |files| && step(files[i]) == Some(v);
        if i < |init| {
          assert step(init[i]) == Some(v);
        }
      }
    }
  }

  /** The result is empty exactly when every file failed. */
  lemma {:induction false} CollectedEmpty<V>(files: seq<string>, step: string -> Option<V>)
    ensures Collected(files, step) == [] <==> forall i :: 0 <= i < |files| ==> step(files[i]).None?
    decreases |files|
  {
    if files != [] {
      var init := files[..|files| - 1];
      CollectedEmpty(init, step);
      assert Collected(files, step) == Collected(init, step) + Contribution(step, files[|files| - 1]);
      assert forall i :: 0 <= i < |init| ==> init[i] == files[i];
    }
  }

  /** When every file succeeds, every file adds one value. */
  lemma {:induction false} CollectedAll<V>(files: seq<string>, step: string -> Option<V>)
    requires forall i :: 0 <= i < |files| ==> step(files[i]).Some?
    ensures |Collected(files, step)| == |files|
    ensures forall i :: 0 <= i < |files| ==> Collected(files, step)[i] == step(files[i]).value
    decreases |files|
  {
    if files != [] {
      var init := files[..|files| - 1];
      assert forall i :: 0 <= i < |init| ==> init[i] == files[i];
      CollectedAll(init, step);
    }
  }

  /** The loop over the selected files: the result is the files' contributions in
      order. */
  method ParseInvoicesFromImages<V>(listing: seq<string>, respond: string -> Option<string>, parse: string -> Option<V>)
    returns (invoiceData: seq<V>)
    ensures invoiceData == Collected(ImageFiles.SelectImages(listing), Step(respond, parse))
    ensures |invoiceData| <= |ImageFiles.SelectImages(listing)|
  {
    var imageFiles := ImageFiles.SelectImages(listing);
    var step := Step(respond, parse);
    invoiceData := [];
    for i := 0 to |imageFiles|
      invariant invoiceData == Collected(imageFiles[..i], step)
    {
      var filename := imageFiles[i];
      var data := step(filename);
      if data.Some? {
        invoiceData := invoiceData + [data.value];
      }
      CollectedPrefix(imageFiles, i, step);
    }
    assert imageFiles[..|imageFiles|] == imageFiles;
  }
}
