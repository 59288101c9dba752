/** `convert_selected` and `clear_converted`: the per-path decisions of a
    conversion batch over the output folder, and the clearing of that folder.
    The file system is abstracted to the set of input paths that exist, the
    images Pillow can decode, and the contents of the output folder. */
module Batch {
  import opened Pixels
  import opened Paths
  import opened Svg

  /** The per-path result, carrying the input's file name as the log shows
      it. */
  datatype Outcome =
    | Converted(name: string)
    | Skipped(name: string)
    | Missing(name: string)
    | Failed(name: string)

  /** The inputs as the file system presents them: which paths exist, and
      for every path Pillow can open and convert, the SVG text the converter
      writes for it. A path that exists but is absent from `written` makes
      Pillow raise. */
  datatype Inputs = Inputs(present: set<string>, written: map<string, string>)

  /** The inputs for the decoded images `decoded`: each is written as its
      SVG text. */
  function InputsOf(present: set<string>, decoded: map<string, Image>): (inputs: Inputs)
    requires forall p :: p in decoded ==> decoded[p].Valid()
    ensures inputs.present == present
    ensures forall p :: p in inputs.written <==> p in decoded
    ensures forall p :: p in decoded && decoded[p].AllTransparent() ==>
      inputs.written[p] == XmlDeclaration + HeaderText(ImageToSvg(decoded[p])) + Footer
  {
    Inputs(present, map p | p in decoded :: SvgText(decoded[p]))
  }

  /** The output folder: file name to file text. */
  type Folder = map<string, string>

  /** One iteration of the loop of `convert_selected`: a missing input is
      reported, an input whose output exists is skipped, an input Pillow
      cannot read fails, and any other is converted into a new file. */
  function ConvertOne(p: string, inputs: Inputs, out: Folder): (res: (Outcome, Folder))
    ensures res.0.Missing? <==> p !in inputs.present
    ensures res.0.Skipped? <==> p in inputs.present && OutputName(p) in out
    ensures res.0.Failed? <==> p in inputs.present && OutputName(p) !in out && p !in inputs.written
    ensures res.0.Converted? <==> p in inputs.present && OutputName(p) !in out && p in inputs.written
    ensures res.0.Converted? ==> res.1 == out[OutputName(p) := inputs.written[p]]
    ensures !res.0.Converted? ==> res.1 == out
  {
    var name := Name(p);
    if p !in inputs.present then (Missing(name), out)
    else
      var target := OutputName(p);
      if target in out then (Skipped(name), out)
      else if p !in inputs.written then (Failed(name), out)
      else (Converted(name), out[target := inputs.written[p]])
  }

  /** The outcomes of the whole loop: one per path, in order. */
  function Outcomes(paths: seq<string>, inputs: Inputs, out: Folder): (os: seq<Outcome>)
    ensures |os| == |paths|
    decreases |paths|
  {
    if paths == [] then []
    else
      var step := ConvertOne(paths[0], inputs, out);
      [step.0] + Outcomes(paths[1..], inputs, step.1)
  }

  /** The output folder after the whole loop. Files already there are kept
      as they were. */
  function FolderAfter(paths: seq<string>, inputs: Inputs, out: Folder): (r: Folder)
    ensures out.Keys <= r.Keys
    ensures forall f :: f in out ==> r[f] == out[f]
    decreases |paths|
  {
    if paths == [] then out
    else FolderAfter(paths[1..], inputs, ConvertOne(paths[0], inputs, out).1)
  }

  /** The outcome of a later path is its outcome in the rest of the batch,
      run from the folder the first path leaves. */
  lemma OutcomesShift(paths: seq<string>, inputs: Inputs, out: Folder, k: nat)
    requires 0 < k < |paths|
    ensures paths[1..][k - 1] == paths[k]
    ensures Outcomes(paths, inputs, out)[k] == Outcomes(paths[1..], inputs, ConvertOne(paths[0], inputs, out).1)[k - 1]
  {
  }

  /** The files a batch adds are exactly the outputs of the paths it
      reports as converted, and those were not in the folder before. */
  lemma {:induction false} FolderAfterAdds(paths: seq<string>, inputs: Inputs, out: Folder, f: string)
    ensures f in FolderAfter(paths, inputs, out) <==>
      f in out || exists i :: 0 <= i < |paths| && Outcomes(paths, inputs, out)[i].Converted? && OutputName(paths[i]) == f
    decreases |paths|
  {
    if paths != [] {
      var out1 := ConvertOne(paths[0], inputs, out).1;
      var os := Outcomes(paths, inputs, out);
      FolderAfterAdds(paths[1..], inputs, out1, f);
      if f in FolderAfter(paths, inputs, out) && f !in out {
        if f in out1 {
          assert os[0].Converted? && OutputName(paths[0]) == f;
        } else {
          var i :| 0 <= i < |paths| - 1 && Outcomes(paths[1..], inputs, out1)[i].Converted? && OutputName(paths[1..][i]) == f;
          OutcomesShift(paths, inputs, out, i + 1);
        }
      }
      if exists i :: 0 <= i < |paths| && os[i].Converted? && OutputName(paths[i]) == f {
        var i :| 0 <= i < |paths| && os[i].Converted? && OutputName(paths[i]) == f;
        if i == 0 {
          assert f in out1;
        } else {
          OutcomesShift(paths, inputs, out, i);
        }
      }
    }
  }

  /** A path reported as converted exists, decodes, and had no output
      before the batch. */
  lemma {:induction false} ConvertedWasAbsent(paths: seq<string>, inputs: Inputs, out: Folder, i: nat)
    requires i < |paths| && Outcomes(paths, inputs, out)[i].Converted?
    ensures paths[i] in inputs.present && paths[i] in inputs.written
    ensures OutputName(paths[i]) !in out
    decreases |paths|
  {
    if i > 0 {
      OutcomesShift(paths, inputs, out, i);
      ConvertedWasAbsent(paths[1..], inputs, ConvertOne(paths[0], inputs, out).1, i - 1);
    }
  }

  /** A path whose output already exists is skipped, wherever it stands in
      the batch. */
  lemma {:induction false} ExistingOutputSkipped(paths: seq<string>, inputs: Inputs, out: Folder, j: nat)
    requires j < |paths| && paths[j] in inputs.present && OutputName(paths[j]) in out
    ensures Outcomes(paths, inputs, out)[j].Skipped?
    decreases |paths|
  {
    if j > 0 {
      OutcomesShift(paths, inputs, out, j);
      ExistingOutputSkipped(paths[1..], inputs, ConvertOne(paths[0], inputs, out).1, j - 1);
    }
  }

  /** Running two batches one after the other is running their
      concatenation. */
  lemma {:induction false} RunAppend(a: seq<string>, b: seq<string>, inputs: Inputs, out: Folder)
    ensures Outcomes(a + b, inputs, out) == Outcomes(a, inputs, out) + Outcomes(b, inputs, FolderAfter(a, inputs, out))
    ensures FolderAfter(a + b, inputs, out) == FolderAfter(b, inputs, FolderAfter(a, inputs, out))
    decreases |a|
  {
    if a == [] {
      assert a + b == b;
    } else {
      var out1 := ConvertOne(a[0], inputs, out).1;
      assert (a + b)[0] == a[0] && (a + b)[1..] == a[1..] + b;
      RunAppend(a[1..], b, inputs, out1);
    }
  }

  /** The loop state at step `k`: the outcome of path `k` is decided
      against the folder the first `k` paths left, and adds to it. */
  lemma OutcomeAt(paths: seq<string>, inputs: Inputs, out: Folder, k: nat)
    requires k < |paths|
    ensures Outcomes(paths, inputs, out)[k] == ConvertOne(paths[k], inputs, FolderAfter(paths[..k], inputs, out)).0
    ensures FolderAfter(paths[..k + 1], inputs, out) == ConvertOne(paths[k], inputs, FolderAfter(paths[..k], inputs, out)).1
  {
    var before := FolderAfter(paths[..k], inputs, out);
    assert paths == paths[..k] + paths[k..];
    RunAppend(paths[..k], paths[k..], inputs, out);
    assert Outcomes(paths[k..], inputs, before)[0] == ConvertOne(paths[k], inputs, before).0;
    assert paths[..k + 1] == paths[..k] + [paths[k]];
    RunAppend(paths[..k], [paths[k]], inputs, out);
  }

  /** The folder only grows from one step of the loop to a later one. */
  lemma FolderGrows(paths: seq<string>, inputs: Inputs, out: Folder, k: nat, m: nat)
    requires k <= m <= |paths|
    ensures FolderAfter(paths[..k], inputs, out).Keys <= FolderAfter(paths[..m], inputs, out).Keys
  {
    assert paths[..m] == paths[..k] + paths[k..m];
    RunAppend(paths[..k], paths[k..m], inputs, out);
  }

  /** Every outcome carries its input's file name, as the log shows it. */
  lemma OutcomeNames(paths: seq<string>, inputs: Inputs, out: Folder)
    ensures forall i :: 0 <= i < |paths| ==> Outcomes(paths, inputs, out)[i].name == Name(paths[i])
  {
    forall i | 0 <= i < |paths|
      ensures Outcomes(paths, inputs, out)[i].name == Name(paths[i])
    {
      OutcomeAt(paths, inputs, out, i);
    }
  }

  /** Once a path is converted or skipped, any later path with the same stem
      is skipped: an input never overwrites an output, even one made from a
      different file in the same batch. */
  lemma LaterSameStemSkipped(paths: seq<string>, inputs: Inputs, out: Folder, i: nat, j: nat)
    requires i < j < |paths|
    requires OutputName(paths[i]) == OutputName(paths[j]) && paths[j] in inputs.present
    requires Outcomes(paths, inputs, out)[i].Converted? || Outcomes(paths, inputs, out)[i].Skipped?
    ensures Outcomes(paths, inputs, out)[j].Skipped?
  {
    OutcomeAt(paths, inputs, out, i);
    assert OutputName(paths[i]) in FolderAfter(paths[..i + 1], inputs, out);
    FolderGrows(paths, inputs, out, i + 1, j);
    OutcomeAt(paths, inputs, out, j);
  }

  /** Every input that exists and decodes has its output in the folder after
      the batch, converted now or before. */
  lemma {:induction false} FolderAfterCovers(paths: seq<string>, inputs: Inputs, out: Folder, i: nat)
    requires i < |paths| && paths[i] in inputs.present && paths[i] in inputs.written
    ensures OutputName(paths[i]) in FolderAfter(paths, inputs, out)
    decreases |paths|
  {
    var out1 := ConvertOne(paths[0], inputs, out).1;
    assert FolderAfter(paths, inputs, out) == FolderAfter(paths[1..], inputs, out1);
    if i == 0 {
      assert OutputName(paths[0]) in out1;
    } else {
      assert paths[1..][i - 1] == paths[i];
      FolderAfterCovers(paths[1..], inputs, out1, i - 1);
    }
  }

  /** Every path of the batch that exists and decodes already has its
      output in the folder. */
  predicate Covered(paths: seq<string>, inputs: Inputs, out: Folder) {
    forall p :: p in paths && p in inputs.present && p in inputs.written ==> OutputName(p) in out
  }

  /** A batch whose decodable inputs all have outputs already converts
      nothing and leaves the folder as it is. */
  lemma {:induction false} CoveredBatchIsNoOp(paths: seq<string>, inputs: Inputs, out: Folder)
    requires Covered(paths, inputs, out)
    ensures FolderAfter(paths, inputs, out) == out
    ensures forall i :: 0 <= i < |paths| ==> !Outcomes(paths, inputs, out)[i].Converted?
    decreases |paths|
  {
    if paths != [] {
      assert ConvertOne(paths[0], inputs, out).1 == out;
      assert Outcomes(paths, inputs, out)[0] == ConvertOne(paths[0], inputs, out).0;
      assert FolderAfter(paths, inputs, out) == FolderAfter(paths[1..], inputs, out);
      assert Covered(paths[1..], inputs, out) by {
        forall p | p in paths[1..] ensures p in paths {
        }
      }
      CoveredBatchIsNoOp(paths[1..], inputs, out);
      forall i | 0 < i < |paths|
        ensures !Outcomes(paths, inputs, out)[i].Converted?
      {
        OutcomesShift(paths, inputs, out, i);
      }
    }
  }

  /** A skipped path existed and its output was in the folder afterwards. */
  lemma {:induction false} SkippedOutputKept(paths: seq<string>, inputs: Inputs, out: Folder, j: nat)
    requires j < |paths| && Outcomes(paths, inputs, out)[j].Skipped?
    ensures paths[j] in inputs.present && OutputName(paths[j]) in FolderAfter(paths, inputs, out)
    decreases |paths|
  {
    var out1 := ConvertOne(paths[0], inputs, out).1;
    assert Outcomes(paths, inputs, out)[0] == ConvertOne(paths[0], inputs, out).0;
    assert FolderAfter(paths, inputs, out) == FolderAfter(paths[1..], inputs, out1);
    if j > 0 {
      OutcomesShift(paths, inputs, out, j);
      SkippedOutputKept(paths[1..], inputs, out1, j - 1);
    } else {
      assert OutputName(paths[0]) in out1;
    }
  }

  /** After a batch, every path that exists and decodes has its output in
      the folder. */
  lemma FolderAfterCovered(paths: seq<string>, inputs: Inputs, out: Folder)
    ensures Covered(paths, inputs, FolderAfter(paths, inputs, out))
  {
    forall p | p in paths && p in inputs.present && p in inputs.written
      ensures OutputName(p) in FolderAfter(paths, inputs, out)
    {
      var i :| 0 <= i < |paths| && paths[i] == p;
      FolderAfterCovers(paths, inputs, out, i);
    }
  }

  /** A path the first run converted or skipped is skipped by a second run
      from the folder the first one left. */
  lemma RerunSkips(paths: seq<string>, inputs: Inputs, out: Folder, i: nat)
    requires i < |paths|
    requires Outcomes(paths, inputs, out)[i].Converted? || Outcomes(paths, inputs, out)[i].Skipped?
    ensures Outcomes(paths, inputs, FolderAfter(paths, inputs, out))[i].Skipped?
  {
    if Outcomes(paths, inputs, out)[i].Converted? {
      ConvertedWasAbsent(paths, inputs, out, i);
      FolderAfterCovers(paths, inputs, out, i);
    } else {
      SkippedOutputKept(paths, inputs, out, i);
    }
    ExistingOutputSkipped(paths, inputs, FolderAfter(paths, inputs, out), i);
  }

  /** Idempotence: running the same batch again converts nothing, leaves the
      output folder as the first run left it, and reports every path the
      first run converted or skipped as skipped. */
  lemma Idempotent(paths: seq<string>, inputs: Inputs, out: Folder)
    ensures var out1 := FolderAfter(paths, inputs, out);
      && FolderAfter(paths, inputs, out1) == out1
      && (forall i :: 0 <= i < |paths| ==> !Outcomes(paths, inputs, out1)[i].Converted?)
      && (forall i :: 0 <= i < |paths| && (Outcomes(paths, inputs, out)[i].Converted? || Outcomes(paths, inputs, out)[i].Skipped?) ==>
            Outcomes(paths, inputs, out1)[i].Skipped?)
  {
    FolderAfterCovered(paths, inputs, out);
    CoveredBatchIsNoOp(paths, inputs, FolderAfter(paths, inputs, out));
    forall i | 0 <= i < |paths| && (Outcomes(paths, inputs, out)[i].Converted? || Outcomes(paths, inputs, out)[i].Skipped?)
      ensures Outcomes(paths, inputs, FolderAfter(paths, inputs, out))[i].Skipped?
    {
      RerunSkips(paths, inputs, out, i);
    }
  }

  /** A converted path's output keeps the text written for it to the end of
      the batch: a later path with the same output name finds the file and
      is skipped, so nothing overwrites it. */
  lemma ConvertedOutputKept(paths: seq<string>, inputs: Inputs, out: Folder, i: nat)
    requires i < |paths| && Outcomes(paths, inputs, out)[i].Converted?
    ensures OutputName(paths[i]) in FolderAfter(paths, inputs, out) && paths[i] in inputs.written
    ensures FolderAfter(paths, inputs, out)[OutputName(paths[i])] == inputs.written[paths[i]]
  {
    OutcomeAt(paths, inputs, out, i);
    RunAppend(paths[..i + 1], paths[i + 1..], inputs, out);
    assert paths[..i + 1] + paths[i + 1..] == paths;
  }

  /** For decoded images, the file a conversion leaves in the folder is the
      SVG text `image_to_svg_vector` writes for that image. */
  lemma ConvertedWritesSvg(present: set<string>, decoded: map<string, Image>, paths: seq<string>, out: Folder, i: nat)
    requires forall p :: p in decoded ==> decoded[p].Valid()
    requires i < |paths| && Outcomes(paths, InputsOf(present, decoded), out)[i].Converted?
    ensures paths[i] in decoded && OutputName(paths[i]) in FolderAfter(paths, InputsOf(present, decoded), out)
    ensures FolderAfter(paths, InputsOf(present, decoded), out)[OutputName(paths[i])] == SvgText(decoded[paths[i]])
  {
    ConvertedOutputKept(paths, InputsOf(present, decoded), out, i);
  }

  /** What `convert_selected` reports. */
  datatype Report = NoFiles | Done(outcomes: seq<Outcome>)

  /** `convert_selected`: with nothing selected it only warns; otherwise it
      converts every selected path and clears the selection. Returns the
      report, the selection afterwards, and the output folder afterwards. */
  function ConvertSelected(selected: seq<string>, inputs: Inputs, out: Folder): (res: (Report, seq<string>, Folder))
    ensures selected == [] <==> res.0.NoFiles?
    ensures selected == [] ==> res.1 == selected && res.2 == out
    ensures res.0.Done? ==> |res.0.outcomes| == |selected| && res.1 == []
    ensures res.0.Done? ==> res.0.outcomes == Outcomes(selected, inputs, out)
    ensures res.2 == FolderAfter(selected, inputs, out)
  {
    if selected == [] then (NoFiles, selected, out)
    else
      (Done(Outcomes(selected, inputs, out)), [], FolderAfter(selected, inputs, out))
  }

  /** The names `convert_selected` logs as converted, in batch order. */
  function ConvertedNames(os: seq<Outcome>): (names: seq<string>)
    ensures forall n :: multiset(names)[n] == multiset(os)[Converted(n)]
    decreases |os|
  {
    if os == [] then []
    else
      assert os == [os[0]] + os[1..];
      var rest := ConvertedNames(os[1..]);
      if os[0].Converted? then [os[0].name] + rest else rest
  }

  /** The names `convert_selected` logs as skipped, in batch order. */
  function SkippedNames(os: seq<Outcome>): (names: seq<string>)
    ensures forall n :: multiset(names)[n] == multiset(os)[Skipped(n)]
    decreases |os|
  {
    if os == [] then []
    else
      assert os == [os[0]] + os[1..];
      var rest := SkippedNames(os[1..]);
      if os[0].Skipped? then [os[0].name] + rest else rest
  }

  /** The errors `convert_selected` logs (missing or unreadable inputs), in
      batch order. */
  function Errors(os: seq<Outcome>): (errs: seq<Outcome>)
    ensures forall o :: multiset(errs)[o] == if o.Missing? || o.Failed? then multiset(os)[o] else 0
    decreases |os|
  {
    if os == [] then []
    else
      assert os == [os[0]] + os[1..];
      var rest := Errors(os[1..]);
      if os[0].Missing? || os[0].Failed? then [os[0]] + rest else rest
  }

  /** Every outcome lands in exactly one of the three lists. */
  lemma {:induction false} SummaryLength(os: seq<Outcome>)
    ensures |ConvertedNames(os)| + |SkippedNames(os)| + |Errors(os)| == |os|
    decreases |os|
  {
    if os != [] {
      SummaryLength(os[1..]);
    }
  }

  /** The summary `convert_selected` logs: the names converted, the names
      skipped, and the errors, each in batch order and each outcome
      exactly once. */
  function Summary(os: seq<Outcome>): (s: (seq<string>, seq<string>, seq<Outcome>))
    ensures |s.0| + |s.1| + |s.2| == |os|
    ensures forall n :: multiset(s.0)[n] == multiset(os)[Converted(n)]
    ensures forall n :: multiset(s.1)[n] == multiset(os)[Skipped(n)]
    ensures forall o :: multiset(s.2)[o] == if o.Missing? || o.Failed? then multiset(os)[o] else 0
  {
    SummaryLength(os);
    (ConvertedNames(os), SkippedNames(os), Errors(os))
  }

  /** `clear_converted`: every file of the output folder is unlinked; a
      file whose deletion fails (`stuck`) stays, and the failure is
      ignored. */
  function ClearConverted(out: Folder, stuck: set<string>): (res: Folder)
    ensures res.Keys == out.Keys * stuck
    ensures forall f :: f in res ==> res[f] == out[f]
  {
    map f | f in out && f in stuck :: out[f]
  }

  /** After a clean clear, a batch converts every path that exists and
      decodes, unless an earlier such path took the same output name. */
  lemma ClearThenConvert(paths: seq<string>, inputs: Inputs, out: Folder, i: nat)
    requires i < |paths| && paths[i] in inputs.present && paths[i] in inputs.written
    requires forall k :: 0 <= k < i && paths[k] in inputs.present && paths[k] in inputs.written ==>
      OutputName(paths[k]) != OutputName(paths[i])
    ensures Outcomes(paths, inputs, ClearConverted(out, {}))[i].Converted?
  {
    var empty := ClearConverted(out, {});
    var f := OutputName(paths[i]);
    OutcomeAt(paths, inputs, empty, i);
    FolderAfterAdds(paths[..i], inputs, empty, f);
    if f in FolderAfter(paths[..i], inputs, empty) {
      var k :| 0 <= k < i && Outcomes(paths[..i], inputs, empty)[k].Converted? && OutputName(paths[..i][k]) == f;
      ConvertedWasAbsent(paths[..i], inputs, empty, k);
    }
  }
}
