/** The server routes of src/index.tsx that hold logic: the sitemap, the
    `/convert/:slug` page and the catch-all page's title. */
module Routes {
  import opened Text
  import opened Constants

  // ---------------------------------------------------------------------
  // Sitemap

  /** One `<url>` element of the sitemap, its location relative to the site. */
  datatype UrlEntry = UrlEntry(loc: string, priority: string, changefreq: string)

  const HomeEntry := UrlEntry("/", "1.0", "weekly")
  const PrivacyEntry := UrlEntry("/privacy", "0.3", "monthly")

  /** The path segment naming a conversion page. */
  function Slug(source: string, target: string): string {
    source + "-to-" + target
  }

  function ConvertEntry(source: string, target: string): UrlEntry {
    UrlEntry("/convert/" + Slug(source, target), "0.8", "monthly")
  }

  /** The valid pairs `(source, t)` for `t` in `outputs`, in the order of `outputs`. */
  function RowPairs(source: string, outputs: seq<string>): seq<(string, string)>
    decreases |outputs|
  {
    if outputs == [] then []
    else
      var target := outputs[|outputs| - 1];
      RowPairs(source, outputs[..|outputs| - 1]) +
      (if IsValidFormat(source, target) then [(source, target)] else [])
  }

  /** The valid pairs of `inputs` x `outputs`, input-major. */
  function ValidPairs(inputs: seq<string>, outputs: seq<string>): seq<(string, string)>
    decreases |inputs|
  {
    if inputs == [] then []
    else ValidPairs(inputs[..|inputs| - 1], outputs) + RowPairs(inputs[|inputs| - 1], outputs)
  }

  function Entries(pairs: seq<(string, string)>): seq<UrlEntry> {
    seq(|pairs|, k requires 0 <= k < |pairs| => ConvertEntry(pairs[k].0, pairs[k].1))
  }

  /** The sitemap's entries: home, privacy, then one page per valid pair. */
  function Sitemap(): seq<UrlEntry> {
    [HomeEntry, PrivacyEntry] + Entries(ValidPairs(SupportedInputs, SupportedOutputs))
  }

  lemma EntriesAppend(a: seq<(string, string)>, b: seq<(string, string)>)
    ensures Entries(a + b) == Entries(a) + Entries(b)
  {
    assert forall k :: 0 <= k < |a + b| ==> (a + b)[k] == if k < |a| then a[k] else b[k - |a|];
  }

  /** One turn of the inner loop adds the page of `(source, outputs[j])` if
      that pair is valid. */
  lemma RowStep(prefix: seq<(string, string)>, source: string, outputs: seq<string>, j: nat)
    requires j < |outputs|
    ensures Entries(prefix + RowPairs(source, outputs[..j + 1])) ==
            Entries(prefix + RowPairs(source, outputs[..j])) +
            (if IsValidFormat(source, outputs[j]) then [ConvertEntry(source, outputs[j])] else [])
  {
    var done := prefix + RowPairs(source, outputs[..j]);
    assert outputs[..j + 1][..j] == outputs[..j];
    if IsValidFormat(source, outputs[j]) {
      EntriesAppend(done, [(source, outputs[j])]);
      assert prefix + RowPairs(source, outputs[..j + 1]) == done + [(source, outputs[j])];
    }
  }

  /** The `/sitemap.xml` handler's list of URLs, built by the nested loops. */
  method SitemapUrls() returns (urls: seq<UrlEntry>)
    ensures urls == Sitemap()
  {
    urls := [];
    urls := urls + [HomeEntry];
    urls := urls + [PrivacyEntry];
    var i := 0;
    while i < |SupportedInputs|
      invariant 0 <= i <= |SupportedInputs|
      invariant urls == [HomeEntry, PrivacyEntry] + Entries(ValidPairs(SupportedInputs[..i], SupportedOutputs))
    {
      var source := SupportedInputs[i];
      ghost var before := ValidPairs(SupportedInputs[..i], SupportedOutputs);
      assert RowPairs(source, SupportedOutputs[..0]) == [];
      assert before + [] == before;
      var j := 0;
      while j < |SupportedOutputs|
        invariant 0 <= j <= |SupportedOutputs|
        invariant urls == [HomeEntry, PrivacyEntry] + Entries(before + RowPairs(source, SupportedOutputs[..j]))
      {
        var target := SupportedOutputs[j];
        RowStep(before, source, SupportedOutputs, j);
        if IsValidFormat(source, target) {
          urls := urls + [ConvertEntry(source, target)];
        }
        j := j + 1;
      }
      assert SupportedOutputs[..j] == SupportedOutputs;
      ValidPairsSnoc(SupportedInputs, SupportedOutputs, i);
      i := i + 1;
    }
    assert SupportedInputs[..i] == SupportedInputs;
  }

  // ---------------------------------------------------------------------
  // `/convert/:slug`

  /** What a route answers: a redirect, or the converter page for a pair. */
  datatype Response = Redirect(location: string) | RenderConvert(source: string, target: string)

  /** The `/convert/:slug` handler. */
  function ConvertRoute(slug: string): Response {
    var parts := Split(slug, "-to-");
    if |parts| != 2 then Redirect("/")
    else if !IsValidFormat(parts[0], parts[1]) then Redirect("/")
    else RenderConvert(parts[0], parts[1])
  }

  /** The route renders a page only for a slug that is exactly a valid pair
      joined by "-to-"; everything else is sent home. */
  lemma ConvertRouteAccepts(slug: string)
    ensures var r := ConvertRoute(slug);
            && (r.Redirect? ==> r.location == "/")
            && (r.RenderConvert? ==> slug == Slug(r.source, r.target) && IsValidFormat(r.source, r.target))
  {
    var parts := Split(slug, "-to-");
    JoinSplit(slug, "-to-");
    if |parts| == 2 {
      assert Join(parts, "-to-") == parts[0] + "-to-" + Join(parts[1..], "-to-");
    }
  }

  /** Every valid pair's slug is accepted and parses back to the same pair,
      letter case included. */
  lemma ConvertRouteOfSlug(source: string, target: string)
    requires IsValidFormat(source, target)
    ensures ConvertRoute(Slug(source, target)) == RenderConvert(source, target)
  {
    ValidPairHasNoDash(source, target);
    SplitJoined(source, target, "-to-");
  }

  /** A slug holding "-to-" at two places is sent home, whatever surrounds
      them ("png-to-jpg-to-webp", "a-b-to-c-to-d"). */
  lemma ChainedSlugRedirects(slug: string, i: nat, j: nat)
    requires i < j && OccursAt(slug, "-to-", i) && OccursAt(slug, "-to-", j)
    ensures ConvertRoute(slug) == Redirect("/")
  {
    var r := ConvertRoute(slug);
    ConvertRouteAccepts(slug);
    if r.RenderConvert? {
      ValidPairHasNoDash(r.source, r.target);
      SeparatorOnlyBetween(r.source, r.target, i);
      SeparatorOnlyBetween(r.source, r.target, j);
      assert false;
    }
  }

  /** In the slug of two dash-free parts, "-to-" occurs only between them. */
  lemma SeparatorOnlyBetween(a: string, b: string, k: nat)
    requires Excludes(a, '-') && Excludes(b, '-')
    requires OccursAt(Slug(a, b), "-to-", k)
    ensures k == |a|
  {
    var s := Slug(a, b);
    assert forall p :: 0 <= p < |a| ==> s[p] == a[p];
    assert forall p :: |a| + 4 <= p < |s| ==> s[p] == b[p - |a| - 4];
    assert s[k] == '-' && s[k + 3] == '-' by {
      assert s[k..k + 4] == "-to-";
      assert s[k] == s[k..k + 4][0] && s[k + 3] == s[k..k + 4][3];
    }
  }

  // ---------------------------------------------------------------------
  // What the sitemap lists

  /** The first index of `x` in `xs`. */
  function Position(xs: seq<string>, x: string): (k: nat)
    requires x in xs
    ensures k < |xs| && xs[k] == x
    ensures forall m :: 0 <= m < k ==> xs[m] != x
  {
    if xs[0] == x then 0 else 1 + Position(xs[1..], x)
  }

  predicate Distinct(xs: seq<string>) {
    forall a, b :: 0 <= a < b < |xs| ==> xs[a] != xs[b]
  }

  /** Pair `p` comes before pair `q` in input-major order. */
  predicate InputMajor(inputs: seq<string>, outputs: seq<string>, p: (string, string), q: (string, string))
    requires p.0 in inputs && q.0 in inputs && p.1 in outputs && q.1 in outputs
  {
    || Position(inputs, p.0) < Position(inputs, q.0)
    || (p.0 == q.0 && Position(outputs, p.1) < Position(outputs, q.1))
  }

  /** The pairs' targets come in the order they have in `outputs`. */
  predicate TargetsInOrder(pairs: seq<(string, string)>, outputs: seq<string>) {
    forall a, b :: 0 <= a < b < |pairs| ==>
      pairs[a].1 in outputs && pairs[b].1 in outputs &&
      Position(outputs, pairs[a].1) < Position(outputs, pairs[b].1)
  }

  /** The pairs come in input-major order. */
  predicate InputMajorOrder(pairs: seq<(string, string)>, inputs: seq<string>, outputs: seq<string>) {
    forall a, b :: 0 <= a < b < |pairs| ==>
      pairs[a].0 in inputs && pairs[b].0 in inputs && pairs[a].1 in outputs && pairs[b].1 in outputs &&
      InputMajor(inputs, outputs, pairs[a], pairs[b])
  }

  /** A row holds exactly the valid pairs of its source. */
  lemma {:induction false} RowPairsMembers(source: string, outputs: seq<string>)
    decreases |outputs|
    ensures forall p :: p in RowPairs(source, outputs) <==>
              p.0 == source && p.1 in outputs && IsValidFormat(p.0, p.1)
  {
    if outputs != [] {
      var init := outputs[..|outputs| - 1];
      RowPairsMembers(source, init);
      assert outputs == init + [outputs[|outputs| - 1]];
    }
  }

  /** The generated pairs are exactly the valid pairs of the two lists. */
  lemma {:induction false} ValidPairsMembers(inputs: seq<string>, outputs: seq<string>)
    decreases |inputs|
    ensures forall p :: p in ValidPairs(inputs, outputs) <==>
              p.0 in inputs && p.1 in outputs && IsValidFormat(p.0, p.1)
  {
    if inputs != [] {
      var init := inputs[..|inputs| - 1];
      ValidPairsMembers(init, outputs);
      RowPairsMembers(inputs[|inputs| - 1], outputs);
      assert inputs == init + [inputs[|inputs| - 1]];
    }
  }

  lemma PositionInPrefix(xs: seq<string>, y: string, x: string)
    requires x in xs
    ensures Position(xs + [y], x) == Position(xs, x)
  {
    var k := Position(xs, x);
    var k' := Position(xs + [y], x);
    assert (xs + [y])[k] == x;
    assert k' <= k;
    assert xs[k'] == x;
  }

  lemma PositionOfLast(xs: seq<string>, y: string)
    requires y !in xs
    ensures Position(xs + [y], y) == |xs|
  {
    assert forall m :: 0 <= m < |xs| ==> (xs + [y])[m] != y;
  }

  /** Within a row, pairs follow the order of the outputs. */
  lemma {:induction false} RowPairsOrdered(source: string, outputs: seq<string>)
    requires Distinct(outputs)
    decreases |outputs|
    ensures TargetsInOrder(RowPairs(source, outputs), outputs)
  {
    if outputs != [] {
      var init := outputs[..|outputs| - 1];
      var last := outputs[|outputs| - 1];
      assert outputs == init + [last];
      assert Distinct(init);
      assert last !in init;
      RowPairsOrdered(source, init);
      RowPairsMembers(source, init);
      var extra := if IsValidFormat(source, last) then [(source, last)] else [];
      TargetsStep(init, last, RowPairs(source, init), extra);
    }
  }

  /** Appending at most one pair whose target is a new last output keeps
      the targets in order. */
  lemma TargetsStep(init: seq<string>, last: string, prev: seq<(string, string)>, extra: seq<(string, string)>)
    requires last !in init && |extra| <= 1
    requires TargetsInOrder(prev, init)
    requires forall p :: p in prev ==> p.1 in init
    requires forall p :: p in extra ==> p.1 == last
    ensures TargetsInOrder(prev + extra, init + [last])
  {
    var outputs, row := init + [last], prev + extra;
    PositionOfLast(init, last);
    forall a, b | 0 <= a < b < |row|
      ensures row[a].1 in outputs && row[b].1 in outputs
      ensures Position(outputs, row[a].1) < Position(outputs, row[b].1)
    {
      assert a < |prev| && row[a] == prev[a] && prev[a] in prev;
      PositionInPrefix(init, last, row[a].1);
      if b < |prev| {
        assert row[b] == prev[b] && prev[b] in prev;
        PositionInPrefix(init, last, row[b].1);
      } else {
        assert row[b] == extra[0] && extra[0] in extra;
      }
    }
  }

  /** The sitemap's pairs are in input-major order, so none repeats. */
  lemma {:induction false} ValidPairsInputMajor(inputs: seq<string>, outputs: seq<string>)
    requires Distinct(inputs) && Distinct(outputs)
    decreases |inputs|
    ensures InputMajorOrder(ValidPairs(inputs, outputs), inputs, outputs)
  {
    ValidPairsMembers(inputs, outputs);
    if inputs != [] {
      var init := inputs[..|inputs| - 1];
      var last := inputs[|inputs| - 1];
      assert inputs == init + [last];
      assert Distinct(init);
      assert last !in init;
      ValidPairsInputMajor(init, outputs);
      ValidPairsMembers(init, outputs);
      RowPairsMembers(last, outputs);
      RowPairsOrdered(last, outputs);
      PositionOfLast(init, last);
      InputMajorStep(init, last, outputs, ValidPairs(init, outputs), RowPairs(last, outputs));
    }
  }

  /** Appending the row of a new last input keeps input-major order. */
  lemma InputMajorStep(init: seq<string>, last: string, outputs: seq<string>,
                       prev: seq<(string, string)>, row: seq<(string, string)>)
    requires last !in init
    requires InputMajorOrder(prev, init, outputs) && TargetsInOrder(row, outputs)
    requires forall p :: p in prev ==> p.0 in init && p.1 in outputs
    requires forall p :: p in row ==> p.0 == last && p.1 in outputs
    ensures InputMajorOrder(prev + row, init + [last], outputs)
  {
    var inputs, ps := init + [last], prev + row;
    PositionOfLast(init, last);
    forall a, b | 0 <= a < b < |ps|
      ensures ps[a].0 in inputs && ps[b].0 in inputs && ps[a].1 in outputs && ps[b].1 in outputs
      ensures InputMajor(inputs, outputs, ps[a], ps[b])
    {
      if b < |prev| {
        assert ps[a] == prev[a] && ps[b] == prev[b];
        assert prev[a] in prev && prev[b] in prev;
        assert InputMajor(init, outputs, prev[a], prev[b]);
        PositionInPrefix(init, last, ps[a].0);
        PositionInPrefix(init, last, ps[b].0);
      } else if a < |prev| {
        assert ps[a] == prev[a] && prev[a] in prev;
        assert ps[b] == row[b - |prev|] && row[b - |prev|] in row;
        PositionInPrefix(init, last, ps[a].0);
      } else {
        assert ps[a] == row[a - |prev|] && ps[b] == row[b - |prev|];
        assert row[a - |prev|] in row && row[b - |prev|] in row;
      }
    }
  }

  /** Each sitemap page past the first two is a valid pair's converter page,
      and the route accepts its slug and parses back that very pair. */
  lemma SitemapRoundTrip()
    ensures var ps := ValidPairs(SupportedInputs, SupportedOutputs);
            && |Sitemap()| == 2 + |ps|
            && Sitemap()[0] == HomeEntry && Sitemap()[1] == PrivacyEntry
            && forall k :: 0 <= k < |ps| ==>
                 && ps[k].0 in SupportedInputs && ps[k].1 in SupportedOutputs
                 && IsValidFormat(ps[k].0, ps[k].1)
                 && Sitemap()[k + 2] == ConvertEntry(ps[k].0, ps[k].1)
                 && ConvertRoute(Slug(ps[k].0, ps[k].1)) == RenderConvert(ps[k].0, ps[k].1)
  {
    var ps := ValidPairs(SupportedInputs, SupportedOutputs);
    ValidPairsMembers(SupportedInputs, SupportedOutputs);
    forall k | 0 <= k < |ps|
      ensures ConvertRoute(Slug(ps[k].0, ps[k].1)) == RenderConvert(ps[k].0, ps[k].1)
    {
      assert ps[k] in ps;
      ConvertRouteOfSlug(ps[k].0, ps[k].1);
    }
  }

  /** On the table entries themselves the validator only rules out identity. */
  lemma TablePairValid(source: string, target: string)
    requires source in SupportedInputs && target in SupportedOutputs
    ensures IsValidFormat(source, target) <==> source != target
  {
    LowerOfLowerCase(source);
    LowerOfLowerCase(target);
  }

  lemma ValidPairsSnoc(inputs: seq<string>, outputs: seq<string>, k: nat)
    requires k < |inputs|
    ensures ValidPairs(inputs[..k + 1], outputs) == ValidPairs(inputs[..k], outputs) + RowPairs(inputs[k], outputs)
  {
    assert inputs[..k + 1][..k] == inputs[..k];
  }

  /** A row's length when the validator rules out exactly the identity pair. */
  lemma {:induction false} RowPairsLength(source: string, outputs: seq<string>)
    requires Distinct(outputs)
    requires forall t :: t in outputs ==> (IsValidFormat(source, t) <==> source != t)
    decreases |outputs|
    ensures |RowPairs(source, outputs)| == |outputs| - (if source in outputs then 1 else 0)
  {
    if outputs != [] {
      var init := outputs[..|outputs| - 1];
      var last := outputs[|outputs| - 1];
      assert outputs == init + [last];
      assert Distinct(init);
      assert last !in init;
      RowPairsLength(source, init);
    }
  }

  lemma TablesDistinct()
    ensures Distinct(SupportedInputs) && Distinct(SupportedOutputs)
  {
  }

  /** The row of an input holds every output but the input itself. */
  lemma RowSize(source: string)
    requires source in SupportedInputs
    ensures |RowPairs(source, SupportedOutputs)| == if source in SupportedOutputs then 3 else 4
  {
    TablesDistinct();
    forall t | t in SupportedOutputs ensures IsValidFormat(source, t) <==> source != t {
      TablePairValid(source, t);
    }
    RowPairsLength(source, SupportedOutputs);
  }

  lemma InputTableShape()
    ensures SupportedInputs == SupportedOutputs + ["avif", "heic"]
    ensures "avif" !in SupportedOutputs && "heic" !in SupportedOutputs
  {
    assert forall k :: 0 <= k < |SupportedOutputs| ==> SupportedOutputs[k][0] != 'a' && SupportedOutputs[k][0] != 'h';
  }

  /** The four inputs that are also outputs give three pages each. */
  lemma SharedRowsSize()
    ensures |ValidPairs(SupportedInputs[..4], SupportedOutputs)| == 12
  {
    var ins, outs := SupportedInputs, SupportedOutputs;
    InputTableShape();
    assert ins[..0] == [];
    forall k | 0 <= k < 4 ensures |RowPairs(ins[k], outs)| == 3 {
      assert ins[k] == outs[k];
      RowSize(ins[k]);
    }
    ValidPairsSnoc(ins, outs, 0);
    ValidPairsSnoc(ins, outs, 1);
    ValidPairsSnoc(ins, outs, 2);
    ValidPairsSnoc(ins, outs, 3);
  }

  /** The sitemap lists home, privacy and twenty converter pages. */
  lemma SitemapSize()
    ensures |Sitemap()| == 22
  {
    var ins, outs := SupportedInputs, SupportedOutputs;
    assert |ValidPairs(ins[..5], outs)| == 16 by {
      InputTableShape();
      SharedRowsSize();
      RowSize(ins[4]);
      ValidPairsSnoc(ins, outs, 4);
    }
    assert |ValidPairs(ins, outs)| == 20 by {
      InputTableShape();
      RowSize(ins[5]);
      ValidPairsSnoc(ins, outs, 5);
      assert ins[..6] == ins;
    }
  }

  /** Distinct valid pairs get distinct slugs: the slug determines its pair. */
  lemma SlugInjective(p: (string, string), q: (string, string))
    requires IsValidFormat(p.0, p.1) && IsValidFormat(q.0, q.1)
    requires Slug(p.0, p.1) == Slug(q.0, q.1)
    ensures p == q
  {
    ConvertRouteOfSlug(p.0, p.1);
    ConvertRouteOfSlug(q.0, q.1);
  }

  lemma ConvertLocInjective(p: (string, string), q: (string, string))
    requires IsValidFormat(p.0, p.1) && IsValidFormat(q.0, q.1)
    requires ConvertEntry(p.0, p.1).loc == ConvertEntry(q.0, q.1).loc
    ensures p == q
  {
    var prefix := "/convert/";
    assert Slug(p.0, p.1) == (prefix + Slug(p.0, p.1))[|prefix|..];
    assert Slug(q.0, q.1) == (prefix + Slug(q.0, q.1))[|prefix|..];
    SlugInjective(p, q);
  }

  lemma ConvertLocShape(source: string, target: string)
    ensures |ConvertEntry(source, target).loc| > 9 && ConvertEntry(source, target).loc[1] == 'c'
  {
  }

  lemma SitemapEntryAt(ps: seq<(string, string)>, k: nat)
    requires k < 2 + |ps|
    ensures ([HomeEntry, PrivacyEntry] + Entries(ps))[k] ==
            if k == 0 then HomeEntry else if k == 1 then PrivacyEntry else ConvertEntry(ps[k - 2].0, ps[k - 2].1)
  {
  }

  /** Home and privacy differ in location from each other and from every
      converter page. */
  lemma FixedLocsDiffer(ps: seq<(string, string)>, a: nat, b: nat)
    requires a < 2 && a < b < 2 + |ps|
    ensures ([HomeEntry, PrivacyEntry] + Entries(ps))[a].loc != ([HomeEntry, PrivacyEntry] + Entries(ps))[b].loc
  {
    SitemapEntryAt(ps, a);
    SitemapEntryAt(ps, b);
    var la := ([HomeEntry, PrivacyEntry] + Entries(ps))[a].loc;
    var lb := ([HomeEntry, PrivacyEntry] + Entries(ps))[b].loc;
    if b == 1 {
      assert |la| == 1 && |lb| == 8;
    } else {
      ConvertLocShape(ps[b - 2].0, ps[b - 2].1);
      if a == 0 {
        assert |la| == 1;
      } else {
        assert la[1] == 'p';
      }
    }
  }

  /** No two of the pairs' converter pages share a location. */
  predicate PairLocsUnique(ps: seq<(string, string)>) {
    forall a, b :: 0 <= a < b < |ps| ==>
      ConvertEntry(ps[a].0, ps[a].1).loc != ConvertEntry(ps[b].0, ps[b].1).loc
  }

  /** The converter pages of distinct format lists' valid pairs have
      distinct locations. */
  lemma PairLocsDistinct(inputs: seq<string>, outputs: seq<string>)
    requires Distinct(inputs) && Distinct(outputs)
    ensures PairLocsUnique(ValidPairs(inputs, outputs))
  {
    var ps := ValidPairs(inputs, outputs);
    ValidPairsMembers(inputs, outputs);
    ValidPairsInputMajor(inputs, outputs);
    forall a, b | 0 <= a < b < |ps|
      ensures ConvertEntry(ps[a].0, ps[a].1).loc != ConvertEntry(ps[b].0, ps[b].1).loc
    {
      var p, q := ps[a], ps[b];
      assert p in ps && q in ps;
      assert InputMajor(inputs, outputs, p, q);
      if ConvertEntry(p.0, p.1).loc == ConvertEntry(q.0, q.1).loc {
        ConvertLocInjective(p, q);
      }
    }
  }

  /** A sitemap over distinct format lists holds no location twice. */
  lemma EntriesLocsDistinct(inputs: seq<string>, outputs: seq<string>)
    requires Distinct(inputs) && Distinct(outputs)
    ensures var sm := [HomeEntry, PrivacyEntry] + Entries(ValidPairs(inputs, outputs));
            forall a, b :: 0 <= a < b < |sm| ==> sm[a].loc != sm[b].loc
  {
    var ps := ValidPairs(inputs, outputs);
    var sm := [HomeEntry, PrivacyEntry] + Entries(ps);
    PairLocsDistinct(inputs, outputs);
    forall a, b | 0 <= a < b < |sm| ensures sm[a].loc != sm[b].loc {
      SitemapEntryAt(ps, a);
      SitemapEntryAt(ps, b);
      if a < 2 {
        FixedLocsDiffer(ps, a, b);
      } else {
        assert PairLocsUnique(ps);
        assert ConvertEntry(ps[a - 2].0, ps[a - 2].1).loc != ConvertEntry(ps[b - 2].0, ps[b - 2].1).loc;
      }
    }
  }

  /** No location appears twice in the sitemap. */
  lemma SitemapLocsDistinct()
    ensures forall a, b :: 0 <= a < b < |Sitemap()| ==> Sitemap()[a].loc != Sitemap()[b].loc
  {
    TablesDistinct();
    EntriesLocsDistinct(SupportedInputs, SupportedOutputs);
    assert Sitemap() == [HomeEntry, PrivacyEntry] + Entries(ValidPairs(SupportedInputs, SupportedOutputs));
  }

  // ---------------------------------------------------------------------
  // Catch-all page

  /** The SEO fields a page is rendered with. */
  datatype SeoData = SeoData(title: string, description: string, jsonLd: string)

  const DefaultTitle := "Soku-p | 無料・安全な画像変換ツール"
  const DefaultDescription := "WebAssemblyを使用した高速・安全なクライアントサイド画像変換ツール。JPG, PNG, WebP, HEICなどに対応。登録不要、完全無料。"
  const PrivacyTitle := "プライバシーポリシー | Soku-p"

  /** The catch-all handler's SEO data: the default, retitled for "/privacy" only. */
  method CatchAllSeo(path: string) returns (seo: SeoData)
    ensures seo.title == if path == "/privacy" then PrivacyTitle else DefaultTitle
    ensures seo.description == DefaultDescription && seo.jsonLd == ""
  {
    seo := SeoData(DefaultTitle, DefaultDescription, "");
    if path == "/privacy" {
      seo := seo.(title := PrivacyTitle);
    }
  }
}
