// The bundle builder of bin/build-css-bundles.py: for every bundle of the
// manifest, in order, read its source stylesheets, join them with line
// breaks, normalise the result and write it, with one trailing line break,
// under the bundle's output name. The first missing source stops the run.
//
// The two directories are modelled as maps from file name to file text:
// `src` is the stylesheet source directory, `dir` the output directory as it
// was before the run. The builder returns the output directory as it is
// after the run.

module CssBundles {
  import opened CssText

  /** One manifest entry: the output file and its source files, in order. */
  datatype Bundle = Bundle(output: string, sources: seq<string>)

  /** How a run ends: every bundle written, or stopped at a missing source
      file, named here. */
  datatype Outcome = Built | MissingSource(name: string)

  /** The bundle manifest, in declaration order (the order the builder
      visits it). */
  const Manifest: seq<Bundle> := [
    Bundle("vkbm-frontend.min.css", [
      "variables.scss",
      "common.scss"
    ]),
    Bundle("vkbm-auth.min.css", [
      "variables.scss",
      "buttons.scss",
      "alert.scss",
      "auth-forms.scss"
    ]),
    Bundle("vkbm-editor.min.css", [
      "variables.scss",
      "utility.scss",
      "buttons.scss",
      "alert.scss",
      "auth-forms.scss",
      "admin-editor-fixes.scss",
      "common.scss"
    ]),
    Bundle("vkbm-admin.min.css", [
      "variables.scss",
      "utility.scss",
      "buttons.scss",
      "admin-notice.scss",
      "admin-table.scss",
      "admin-schedule.scss",
      "admin-provider-settings.scss",
      "admin-shift-editor.scss",
      "admin-shift-bulk-create.scss",
      "admin-shift-dashboard.scss",
      "admin-service-menu-quick-edit.scss",
      "admin-post-order.scss",
      "admin-term-order.scss",
      "admin-style-guide.scss",
      "admin-core.scss",
      "common.scss"
    ])
  ]

  // ---------------------------------------------------------------------
  // Sources
  // ---------------------------------------------------------------------

  /** Every named source file exists. */
  predicate Present(src: map<string, string>, names: seq<string>) {
    forall i :: 0 <= i < |names| ==> names[i] in src
  }

  /** Position of the first missing source file. */
  function FirstMissing(src: map<string, string>, names: seq<string>): (k: nat)
    requires !Present(src, names)
    ensures k < |names| && names[k] !in src
    ensures forall i :: 0 <= i < k ==> names[i] in src
  {
    if names[0] !in src then 0
    else
      assert !Present(src, names[1..]) by {
        var i :| 0 <= i < |names| && names[i] !in src;
        assert names[1..][i - 1] == names[i];
      }
      1 + FirstMissing(src, names[1..])
  }

  /** The texts of the named source files, in order. */
  function Contents(src: map<string, string>, names: seq<string>): (texts: seq<string>)
    requires Present(src, names)
    ensures |texts| == |names|
    ensures forall i :: 0 <= i < |names| ==> texts[i] == src[names[i]]
  {
    if names == [] then []
    else [src[names[0]]] + Contents(src, names[1..])
  }

  // ---------------------------------------------------------------------
  // Joining and the bundle text
  // ---------------------------------------------------------------------

  /** Where the `i`-th text starts once the texts are laid out one after
      the other, each followed by one separator character. */
  function Off(parts: seq<string>, i: nat): nat
    requires i <= |parts|
  {
    if i == 0 then 0 else |parts[0]| + 1 + Off(parts[1..], i - 1)
  }

  /** `"\n".join(parts)`: the texts and one separator between each two. */
  function Join(parts: seq<string>): (s: string)
    ensures parts != [] ==> |s| + 1 == Off(parts, |parts|)
    ensures parts == [] ==> s == []
  {
    if parts == [] then ""
    else if |parts| == 1 then parts[0]
    else parts[0] + "\n" + Join(parts[1..])
  }

  /** Each text starts right after the previous one and its separator. */
  lemma {:induction false} OffStep(parts: seq<string>, i: nat)
    requires i < |parts|
    ensures Off(parts, i + 1) == Off(parts, i) + |parts[i]| + 1
    decreases i
  {
    if i > 0 {
      OffStep(parts[1..], i - 1);
      assert parts[1..][i - 1] == parts[i];
    }
  }

  /** The joined text holds every text, unchanged, at its offset, with a
      line break after each one but the last and nothing after the last:
      joining loses nothing and keeps the listed order, whatever the
      texts contain. */
  lemma {:induction false} JoinLayout(parts: seq<string>, i: nat)
    requires i < |parts|
    ensures i + 1 == |parts| ==> Off(parts, i) + |parts[i]| == |Join(parts)|
    ensures i + 1 < |parts| ==>
      Off(parts, i) + |parts[i]| < |Join(parts)| && Join(parts)[Off(parts, i) + |parts[i]|] == '\n'
    ensures Join(parts)[Off(parts, i)..Off(parts, i) + |parts[i]|] == parts[i]
    decreases i
  {
    if |parts| == 1 {
      assert parts[0][0..|parts[0]|] == parts[0];
    } else {
      var head := parts[0] + "\n";
      var rest := Join(parts[1..]);
      assert Join(parts) == head + rest;
      if i == 0 {
        HeadOfJoin(parts[0], rest);
      } else {
        JoinLayout(parts[1..], i - 1);
        assert parts[1..][i - 1] == parts[i];
        var p := Off(parts[1..], i - 1);
        ShiftSlice(head, rest, p, p + |parts[i]|);
      }
    }
  }

  lemma HeadOfJoin(x: string, y: string)
    ensures (x + "\n" + y)[0..|x|] == x
    ensures (x + "\n" + y)[|x|] == '\n'
  {
  }

  lemma ShiftSlice(x: string, y: string, p: nat, q: nat)
    requires p <= q <= |y|
    ensures (x + y)[|x| + p..|x| + q] == y[p..q]
    ensures q < |y| ==> (x + y)[|x| + q] == y[q]
  {
  }

  /** Cutting a text at every line break (the inverse of `Join`). */
  function Split(s: string): (lines: seq<string>)
    ensures |lines| >= 1
  {
    if s == [] then [[]]
    else
      var rest := Split(s[1..]);
      if s[0] == '\n' then [[]] + rest
      else [[s[0]] + rest[0]] + rest[1..]
  }

  /** A text without line breaks extends the first line. */
  lemma {:induction false} SplitPrefix(a: string, b: string)
    requires NoNewline(a)
    ensures Split(a + b) == [a + Split(b)[0]] + Split(b)[1..]
  {
    if a != [] {
      var lines := Split(b);
      assert (a + b)[1..] == a[1..] + b;
      SplitPrefix(a[1..], b);
      assert (a + b)[0] == a[0] != '\n';
      assert Split(a + b) == [[a[0]] + (a[1..] + lines[0])] + lines[1..];
      assert [a[0]] + (a[1..] + lines[0]) == a + lines[0] by {
        assert [a[0]] + a[1..] == a;
      }
    } else {
      var lines := Split(b);
      assert a + b == b;
      assert [a + lines[0]] + lines[1..] == lines by {
        assert a + lines[0] == lines[0];
      }
    }
  }

  /** Joining texts without line breaks and cutting the result at its line
      breaks gives back the texts: joining loses nothing and keeps the
      order. */
  lemma {:induction false} SplitJoin(parts: seq<string>)
    requires parts != []
    requires forall i :: 0 <= i < |parts| ==> NoNewline(parts[i])
    ensures Split(Join(parts)) == parts
  {
    if |parts| == 1 {
      SplitPrefix(parts[0], []);
      assert parts[0] + [] == parts[0];
    } else {
      var rest := Join(parts[1..]);
      SplitJoin(parts[1..]);
      assert Split("\n" + rest) == [[]] + Split(rest) by {
        assert ("\n" + rest)[1..] == rest;
      }
      SplitPrefix(parts[0], "\n" + rest);
      assert parts[0] + "\n" + rest == parts[0] + ("\n" + rest);
      assert parts[0] + [] == parts[0];
      assert [parts[0]] + parts[1..] == parts;
    }
  }

  /** The text written for one bundle: the normalised joined sources and a
      single line break, which is the only line break in it. */
  function BundleText(texts: seq<string>): (r: string)
    ensures |r| >= 1 && r[|r| - 1] == '\n'
    ensures NoNewline(r[..|r| - 1])
    ensures |r| <= |Join(texts)| + 1
  {
    var body := Normalize(Join(texts));
    assert (body + "\n")[..|body|] == body;
    body + "\n"
  }

  // ---------------------------------------------------------------------
  // The run
  // ---------------------------------------------------------------------

  /** Every bundle has all its sources. */
  predicate Complete(src: map<string, string>, bundles: seq<Bundle>) {
    forall i :: 0 <= i < |bundles| ==> Present(src, bundles[i].sources)
  }

  /** Position of the first bundle with a missing source. */
  function FirstIncomplete(src: map<string, string>, bundles: seq<Bundle>): (k: nat)
    requires !Complete(src, bundles)
    ensures k < |bundles| && !Present(src, bundles[k].sources)
    ensures forall i :: 0 <= i < k ==> Present(src, bundles[i].sources)
  {
    if !Present(src, bundles[0].sources) then 0
    else
      assert !Complete(src, bundles[1..]) by {
        var i :| 0 <= i < |bundles| && !Present(src, bundles[i].sources);
        assert bundles[1..][i - 1] == bundles[i];
      }
      1 + FirstIncomplete(src, bundles[1..])
  }

  function Outputs(bundles: seq<Bundle>): set<string> {
    set i | 0 <= i < |bundles| :: bundles[i].output
  }

  predicate DistinctOutputs(bundles: seq<Bundle>) {
    forall i, j :: 0 <= i < j < |bundles| ==> bundles[i].output != bundles[j].output
  }

  /** The outcome of a run over `bundles` and the output directory after
      it, starting from the output directory `dir`. `render` turns the
      texts of a bundle's sources into the text written for it; the builder
      uses `BundleText`, and the properties of a run below hold whatever
      the rendering. */
  function Run(src: map<string, string>, dir: map<string, string>, bundles: seq<Bundle>, render: seq<string> -> string): (r: (Outcome, map<string, string>))
    ensures dir.Keys <= r.1.Keys
    decreases |bundles|
  {
    if bundles == [] then (Built, dir)
    else
      var b := bundles[0];
      if !Present(src, b.sources) then (MissingSource(b.sources[FirstMissing(src, b.sources)]), dir)
      else Run(src, dir[b.output := render(Contents(src, b.sources))], bundles[1..], render)
  }

  /** The result of reading one bundle's sources. */
  datatype SourceRead = Texts(texts: seq<string>) | Missing(name: string)

  /** The inner loop of `main`: read the sources in order, stopping at the
      first one that does not exist. */
  method ReadSources(src: map<string, string>, names: seq<string>) returns (r: SourceRead)
    ensures Present(src, names) ==> r == Texts(Contents(src, names))
    ensures !Present(src, names) ==> r == Missing(names[FirstMissing(src, names)])
  {
    var parts: seq<string> := [];
    var j := 0;
    while j < |names|
      invariant 0 <= j <= |names| && |parts| == j
      invariant forall k :: 0 <= k < j ==> names[k] in src && parts[k] == src[names[k]]
    {
      var name := names[j];
      if name !in src {
        assert FirstMissing(src, names) == j;
        return Missing(name);
      }
      parts := parts + [src[name]];
      j := j + 1;
    }
    assert parts == Contents(src, names);
    return Texts(parts);
  }

  /** `main`: visit the manifest in order; for each bundle read its sources
      and stop at a missing one, otherwise write the bundle text. */
  method Build(src: map<string, string>, dir: map<string, string>) returns (outcome: Outcome, written: map<string, string>)
    ensures (outcome, written) == Run(src, dir, Manifest, BundleText)
    ensures outcome.Built? <==> Complete(src, Manifest)
    ensures outcome.Built? ==> written.Keys == dir.Keys + Outputs(Manifest)
    ensures outcome.Built? ==> forall i :: 0 <= i < |Manifest| ==>
      written[Manifest[i].output] == BundleText(Contents(src, Manifest[i].sources))
    ensures outcome.MissingSource? ==>
      var k := FirstIncomplete(src, Manifest);
      outcome.name == Manifest[k].sources[FirstMissing(src, Manifest[k].sources)]
      && (forall i :: 0 <= i < k ==>
            Manifest[i].output in written && written[Manifest[i].output] == BundleText(Contents(src, Manifest[i].sources)))
      && (forall j :: k <= j < |Manifest| ==>
            (Manifest[j].output in written <==> Manifest[j].output in dir)
            && (Manifest[j].output in dir ==> written[Manifest[j].output] == dir[Manifest[j].output]))
  {
    ManifestDistinct();
    RunBuiltIffComplete(src, dir, Manifest, BundleText);
    if Complete(src, Manifest) {
      RunWritesAll(src, dir, Manifest, BundleText);
    } else {
      RunNamesFirstMissing(src, dir, Manifest, BundleText);
      RunFailureWritesDone(src, dir, Manifest, BundleText);
      RunFailureKeepsRest(src, dir, Manifest, BundleText);
    }
    written := dir;
    var rest := Manifest;
    while rest != []
      invariant Run(src, written, rest, BundleText) == Run(src, dir, Manifest, BundleText)
      decreases |rest|
    {
      var b := rest[0];
      var read := ReadSources(src, b.sources);
      if read.Missing? {
        outcome := MissingSource(read.name);
        return;
      }
      var bundled := Normalize(Join(read.texts));
      written := written[b.output := bundled + "\n"];
      rest := rest[1..];
    }
    outcome := Built;
  }

  // ---------------------------------------------------------------------
  // Properties of a run
  // ---------------------------------------------------------------------

  lemma CompleteCons(src: map<string, string>, bundles: seq<Bundle>)
    requires bundles != []
    ensures Complete(src, bundles) <==> Present(src, bundles[0].sources) && Complete(src, bundles[1..])
  {
    assert forall i :: 0 <= i < |bundles| - 1 ==> bundles[1..][i] == bundles[i + 1];
  }

  lemma OutputsCons(bundles: seq<Bundle>)
    requires bundles != []
    ensures Outputs(bundles) == {bundles[0].output} + Outputs(bundles[1..])
  {
    assert forall i :: 0 <= i < |bundles| - 1 ==> bundles[1..][i] == bundles[i + 1];
  }

  lemma DistinctCons(bundles: seq<Bundle>)
    requires bundles != [] && DistinctOutputs(bundles)
    ensures DistinctOutputs(bundles[1..]) && bundles[0].output !in Outputs(bundles[1..])
  {
    assert forall i :: 0 <= i < |bundles| - 1 ==> bundles[1..][i] == bundles[i + 1];
  }

  /** The manifest names each output file once. */
  lemma ManifestDistinct()
    ensures DistinctOutputs(Manifest)
  {
  }

  /** A run succeeds exactly when every bundle has all its sources. */
  lemma {:induction false} RunBuiltIffComplete(src: map<string, string>, dir: map<string, string>, bundles: seq<Bundle>, render: seq<string> -> string)
    ensures Run(src, dir, bundles, render).0.Built? <==> Complete(src, bundles)
    decreases |bundles|
  {
    if bundles != [] {
      CompleteCons(src, bundles);
      if Present(src, bundles[0].sources) {
        var b := bundles[0];
        RunBuiltIffComplete(src, dir[b.output := render(Contents(src, b.sources))], bundles[1..], render);
      }
    }
  }

  /** A failed run names the first missing source of the first incomplete
      bundle. */
  lemma {:induction false} RunNamesFirstMissing(src: map<string, string>, dir: map<string, string>, bundles: seq<Bundle>, render: seq<string> -> string)
    requires !Complete(src, bundles)
    ensures var k := FirstIncomplete(src, bundles);
      Run(src, dir, bundles, render).0 == MissingSource(bundles[k].sources[FirstMissing(src, bundles[k].sources)])
    decreases |bundles|
  {
    var b := bundles[0];
    if Present(src, b.sources) {
      var tail := bundles[1..];
      CompleteCons(src, bundles);
      RunNamesFirstMissing(src, dir[b.output := render(Contents(src, b.sources))], tail, render);
      assert tail[FirstIncomplete(src, tail)] == bundles[FirstIncomplete(src, bundles)];
    }
  }

  /** A run that fails leaves the output directory as the run over the
      bundles before the first incomplete one leaves it: those are written,
      the failing bundle is not. */
  lemma {:induction false} RunStopsAtFirstIncomplete(src: map<string, string>, dir: map<string, string>, bundles: seq<Bundle>, render: seq<string> -> string)
    requires !Complete(src, bundles)
    ensures Run(src, dir, bundles, render).1 == Run(src, dir, bundles[..FirstIncomplete(src, bundles)], render).1
    decreases |bundles|
  {
    var b := bundles[0];
    var k := FirstIncomplete(src, bundles);
    if Present(src, b.sources) {
      var tail := bundles[1..];
      CompleteCons(src, bundles);
      RunStopsAtFirstIncomplete(src, dir[b.output := render(Contents(src, b.sources))], tail, render);
      assert bundles[..k][1..] == tail[..k - 1];
    } else {
      assert bundles[..k] == [];
    }
  }

  /** A file no bundle writes keeps its presence and its text. */
  lemma {:induction false} RunKeepsOthers(src: map<string, string>, dir: map<string, string>, bundles: seq<Bundle>, name: string, render: seq<string> -> string)
    requires name !in Outputs(bundles)
    ensures name in Run(src, dir, bundles, render).1 <==> name in dir
    ensures name in dir ==> Run(src, dir, bundles, render).1[name] == dir[name]
    decreases |bundles|
  {
    if bundles != [] && Present(src, bundles[0].sources) {
      var b := bundles[0];
      OutputsCons(bundles);
      RunKeepsOthers(src, dir[b.output := render(Contents(src, b.sources))], bundles[1..], name, render);
    }
  }

  /** A successful run writes every output file of the manifest, exactly
      once, with the bundle text of its sources in their listed order, and
      adds no other file. */
  lemma {:induction false} RunWritesAll(src: map<string, string>, dir: map<string, string>, bundles: seq<Bundle>, render: seq<string> -> string)
    requires Complete(src, bundles) && DistinctOutputs(bundles)
    ensures Run(src, dir, bundles, render).1.Keys == dir.Keys + Outputs(bundles)
    ensures forall i :: 0 <= i < |bundles| ==>
      Run(src, dir, bundles, render).1[bundles[i].output] == render(Contents(src, bundles[i].sources))
    decreases |bundles|
  {
    if bundles != [] {
      var b := bundles[0];
      var next := dir[b.output := render(Contents(src, b.sources))];
      var tail := bundles[1..];
      CompleteCons(src, bundles);
      DistinctCons(bundles);
      OutputsCons(bundles);
      RunWritesAll(src, next, tail, render);
      RunKeepsOthers(src, next, tail, b.output, render);
      assert forall i :: 1 <= i < |bundles| ==> bundles[i] == tail[i - 1];
    }
  }
  /** The bundles before the first incomplete one are complete and keep
      distinct outputs, none of which is written by a later bundle. */
  lemma DonePrefix(src: map<string, string>, bundles: seq<Bundle>)
    requires !Complete(src, bundles) && DistinctOutputs(bundles)
    ensures var k := FirstIncomplete(src, bundles);
      Complete(src, bundles[..k]) && DistinctOutputs(bundles[..k])
      && forall j :: k <= j < |bundles| ==> bundles[j].output !in Outputs(bundles[..k])
  {
    var k := FirstIncomplete(src, bundles);
    assert forall i :: 0 <= i < k ==> bundles[..k][i] == bundles[i];
  }

  /** A failed run writes the bundles before the first incomplete one, each
      with the rendering of its sources. */
  lemma RunFailureWritesDone(src: map<string, string>, dir: map<string, string>, bundles: seq<Bundle>, render: seq<string> -> string)
    requires !Complete(src, bundles) && DistinctOutputs(bundles)
    ensures var k := FirstIncomplete(src, bundles);
      forall i :: 0 <= i < k ==>
        bundles[i].output in Run(src, dir, bundles, render).1
        && Run(src, dir, bundles, render).1[bundles[i].output] == render(Contents(src, bundles[i].sources))
  {
    var k := FirstIncomplete(src, bundles);
    var done := bundles[..k];
    RunStopsAtFirstIncomplete(src, dir, bundles, render);
    DonePrefix(src, bundles);
    RunWritesAll(src, dir, done, render);
    assert forall i :: 0 <= i < k ==> done[i] == bundles[i];
  }

  /** A failed run leaves the output files of the failing bundle and of
      every later one untouched. */
  lemma RunFailureKeepsRest(src: map<string, string>, dir: map<string, string>, bundles: seq<Bundle>, render: seq<string> -> string)
    requires !Complete(src, bundles) && DistinctOutputs(bundles)
    ensures var k := FirstIncomplete(src, bundles);
      forall j :: k <= j < |bundles| ==>
        (bundles[j].output in Run(src, dir, bundles, render).1 <==> bundles[j].output in dir)
        && (bundles[j].output in dir ==> Run(src, dir, bundles, render).1[bundles[j].output] == dir[bundles[j].output])
  {
    var k := FirstIncomplete(src, bundles);
    var done := bundles[..k];
    RunStopsAtFirstIncomplete(src, dir, bundles, render);
    DonePrefix(src, bundles);
    forall j | k <= j < |bundles|
      ensures bundles[j].output in Run(src, dir, done, render).1 <==> bundles[j].output in dir
      ensures bundles[j].output in dir ==> Run(src, dir, done, render).1[bundles[j].output] == dir[bundles[j].output]
    {
      RunKeepsOthers(src, dir, done, bundles[j].output, render);
    }
  }

  /** A run's outcome does not depend on the output directory, and the
      directory after it is the directory before it overwritten with what
      the run writes. */
  lemma {:induction false} RunMerges(src: map<string, string>, dir: map<string, string>, bundles: seq<Bundle>, render: seq<string> -> string)
    ensures Run(src, dir, bundles, render).0 == Run(src, map[], bundles, render).0
    ensures Run(src, dir, bundles, render).1 == dir + Run(src, map[], bundles, render).1
    decreases |bundles|
  {
    if bundles == [] || !Present(src, bundles[0].sources) {
      assert dir + map[] == dir;
    } else {
      var b := bundles[0];
      var text := render(Contents(src, b.sources));
      var tail := bundles[1..];
      RunMerges(src, dir[b.output := text], tail, render);
      RunMerges(src, map[b.output := text], tail, render);
      RunMerges(src, map[][b.output := text], tail, render);
      var w := Run(src, map[], tail, render).1;
      assert dir[b.output := text] + w == dir + (map[b.output := text] + w);
      assert map[][b.output := text] == map[b.output := text];
    }
  }

  /** Running the builder again with the same sources changes nothing. */
  lemma RunIdempotent(src: map<string, string>, dir: map<string, string>, bundles: seq<Bundle>, render: seq<string> -> string)
    ensures Run(src, Run(src, dir, bundles, render).1, bundles, render) == Run(src, dir, bundles, render)
  {
    var first := Run(src, dir, bundles, render).1;
    RunMerges(src, dir, bundles, render);
    RunMerges(src, first, bundles, render);
    var w := Run(src, map[], bundles, render).1;
    assert (dir + w) + w == dir + w;
  }
}
