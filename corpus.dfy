/** From the text of a corpus file to the list of article bodies (seg.py,
    `split_articles`, `split_metadata`, `get_body`, and the list of bodies
    built by `load_new_file`). */
module Corpus {
  import opened Common
  import opened Splitter

  /** The text before the first `##` line, which `split_articles` drops. */
  function Preamble(corpus: string): (r: string)
    ensures |r| <= |corpus| && r == corpus[..|r|]
    ensures NoDelimLine(r, ArticleMarker)
  {
    var pieces := Split(corpus, ArticleMarker);
    PrefixOfJoin(pieces, ArticleMarker);
    pieces[0]
  }

  /** `split_articles`: the pieces after each `##` line, in order. There is one
      article per `##` line; the corpus is the preamble followed by every
      article behind its `##`; no article holds a `##` line. */
  function SplitArticles(corpus: string): (articles: seq<string>)
    ensures |articles| == CountDelims(corpus, ArticleMarker, 0)
    ensures corpus == Preamble(corpus) + Prefixed(articles, ArticleMarker)
    ensures forall i :: 0 <= i < |articles| ==> NoDelimLine(articles[i], ArticleMarker)
  {
    var pieces := Split(corpus, ArticleMarker);
    ValidFromClean(pieces, ArticleMarker, true);
    pieces[1..]
  }

  /** `split_metadata`: the article must hold exactly one `++` line, and is
      cut there into metadata and body. */
  function SplitMetadata(article: string): (r: Result<seq<string>>)
    ensures r.Ok? <==> CountDelims(article, MetadataMarker, 0) == 1
    ensures r.Err? ==> r.error == MalformedArticle
    ensures r.Ok? ==> && |r.value| == 2
                      && r.value[0] + MetadataMarker + r.value[1] == article
                      && IsDelimAt(article, MetadataMarker, |r.value[0]|)
                      && NoDelimLine(r.value[0], MetadataMarker)
                      && NoDelimLine(r.value[1], MetadataMarker)
  {
    var parts := Split(article, MetadataMarker);
    if |parts| == 2 then
      MetadataParts(article, parts);
      Ok(parts)
    else
      Err(MalformedArticle)
  }

  /** `get_body`: the text after the single `++` line. */
  function GetBody(article: string): (r: Result<string>)
    ensures r.Ok? <==> CountDelims(article, MetadataMarker, 0) == 1
    ensures r.Err? ==> r.error == MalformedArticle
    ensures r.Ok? ==> |r.value| + |MetadataMarker| <= |article| && r.value == article[|article| - |r.value|..]
  {
    match SplitMetadata(article)
    case Err(e) => Err(e)
    case Ok(parts) =>
      BodyOfParts(article, parts[0], parts[1]);
      Ok(parts[1])
  }

  /** The body returned by `get_body` sits right after the article's `++`
      line, and holds no `++` line of its own. */
  lemma BodyAfterMarker(article: string)
    requires GetBody(article).Ok?
    ensures var body := GetBody(article).value;
            && IsDelimAt(article, MetadataMarker, |article| - |body| - |MetadataMarker|)
            && NoDelimLine(body, MetadataMarker)
  {
    var parts := SplitMetadata(article).value;
    BodyOfParts(article, parts[0], parts[1]);
  }

  /** `[get_body(a) for a in articles]`: the first malformed article stops
      the run; otherwise one body per article, in order. */
  function Bodies(articles: seq<string>): (r: Result<seq<string>>)
    ensures r.Ok? <==> forall i :: 0 <= i < |articles| ==> GetBody(articles[i]).Ok?
    ensures r.Err? ==> r.error == MalformedArticle
    ensures r.Ok? ==> && |r.value| == |articles|
                      && forall i :: 0 <= i < |articles| ==> BodyOf(articles[i], r.value[i])
  {
    if articles == [] then Ok([])
    else
      match GetBody(articles[0])
      case Err(e) => Err(e)
      case Ok(b) =>
        match Bodies(articles[1..])
        case Err(e) => Err(e)
        case Ok(bs) =>
          BodiesCons(articles, b, bs);
          Ok([b] + bs)
  }

  /** `body` is what `get_body` returns for `article`. */
  predicate BodyOf(article: string, body: string)
  {
    GetBody(article) == Ok(body)
  }

  /** What `load_new_file` computes from the text of a corpus file. */
  function ParseCorpus(corpus: string): (r: Result<seq<string>>)
    ensures r.Ok? ==> |r.value| == CountDelims(corpus, ArticleMarker, 0)
  {
    Bodies(SplitArticles(corpus))
  }

  // ----- round trips -----

  /** An article assembled from its metadata and its body. */
  function Article(header: string, body: string): string
  {
    header + MetadataMarker + body
  }

  /** Splitting a corpus assembled from a preamble and articles of the shape
      `re.split` produces gives those articles back, and the preamble. */
  lemma SplitArticlesOfJoin(preamble: string, articles: seq<string>)
    requires ValidPieces([preamble] + articles, ArticleMarker)
    ensures SplitArticles(preamble + Prefixed(articles, ArticleMarker)) == articles
    ensures Preamble(preamble + Prefixed(articles, ArticleMarker)) == preamble
  {
    var pieces := [preamble] + articles;
    assert pieces[1..] == articles;
    SplitOfJoin(pieces, ArticleMarker);
  }

  /** A corpus has no articles exactly when it has no `##` line. */
  lemma NoArticles(corpus: string)
    ensures SplitArticles(corpus) == [] <==> NoDelimLine(corpus, ArticleMarker)
  {
    CountZero(corpus, ArticleMarker, 0);
  }

  /** An article whose metadata and body have no `++` line and surround the
      `++` line properly is split back into them. */
  lemma SplitMetadataOfJoin(header: string, body: string)
    requires ValidPieces([header, body], MetadataMarker)
    ensures SplitMetadata(Article(header, body)) == Ok([header, body])
    ensures GetBody(Article(header, body)) == Ok(body)
  {
    var pieces := [header, body];
    assert pieces[1..] == [body];
    assert [body][1..] == [];
    assert Prefixed([body], MetadataMarker) == MetadataMarker + body;
    assert Join(pieces, MetadataMarker) == Article(header, body);
    SplitOfJoin(pieces, MetadataMarker);
  }

  /** `Bodies` is determined by `get_body` article by article. */
  lemma {:induction false} BodiesOf(articles: seq<string>, bodies: seq<string>)
    requires |articles| == |bodies|
    requires forall i :: 0 <= i < |articles| ==> BodyOf(articles[i], bodies[i])
    ensures Bodies(articles) == Ok(bodies)
  {
    if articles != [] {
      assert BodyOf(articles[0], bodies[0]);
      BodiesOf(articles[1..], bodies[1..]);
      BodiesStep(articles, bodies[0], bodies[1..]);
      assert bodies == [bodies[0]] + bodies[1..];
    }
  }

  lemma BodiesStep(articles: seq<string>, b: string, bs: seq<string>)
    requires |articles| > 0 && GetBody(articles[0]) == Ok(b) && Bodies(articles[1..]) == Ok(bs)
    ensures Bodies(articles) == Ok([b] + bs)
  {
  }

  /** Parsing a corpus built from well-formed articles yields their bodies,
      in order. */
  lemma ParseCorpusOfJoin(preamble: string, headers: seq<string>, bodies: seq<string>, articles: seq<string>)
    requires |headers| == |bodies| == |articles|
    requires forall i :: 0 <= i < |articles| ==> articles[i] == Article(headers[i], bodies[i])
    requires forall i :: 0 <= i < |articles| ==> ValidPieces([headers[i], bodies[i]], MetadataMarker)
    requires ValidPieces([preamble] + articles, ArticleMarker)
    ensures ParseCorpus(preamble + Prefixed(articles, ArticleMarker)) == Ok(bodies)
  {
    SplitArticlesOfJoin(preamble, articles);
    forall i | 0 <= i < |articles|
      ensures BodyOf(articles[i], bodies[i])
    {
      SplitMetadataOfJoin(headers[i], bodies[i]);
    }
    BodiesOf(articles, bodies);
  }

  // ----- helper lemmas -----

  lemma PrefixOfJoin(pieces: seq<string>, d: Marker)
    requires |pieces| > 0 && ValidPieces(pieces, d)
    ensures |pieces[0]| <= |Join(pieces, d)| && pieces[0] == Join(pieces, d)[..|pieces[0]|]
    ensures NoDelimLine(pieces[0], d)
  {
  }

  lemma MetadataParts(article: string, parts: seq<string>)
    requires parts == Split(article, MetadataMarker) && |parts| == 2
    ensures parts[0] + MetadataMarker + parts[1] == article
    ensures IsDelimAt(article, MetadataMarker, |parts[0]|)
    ensures NoDelimLine(parts[0], MetadataMarker) && NoDelimLine(parts[1], MetadataMarker)
  {
    assert parts[1..] == [parts[1]];
    ValidFromClean(parts, MetadataMarker, true);
    JoinCons(parts, MetadataMarker);
    assert article[0..] == article;
    ThreeParts(article, 0, parts[0], MetadataMarker, parts[1]);
  }

  lemma BodyOfParts(article: string, header: string, body: string)
    requires header + MetadataMarker + body == article
    requires IsDelimAt(article, MetadataMarker, |header|)
    ensures |body| + |MetadataMarker| <= |article| && body == article[|article| - |body|..]
    ensures IsDelimAt(article, MetadataMarker, |article| - |body| - |MetadataMarker|)
  {
    assert article[|header| + |MetadataMarker|..] == body;
  }

  lemma BodiesCons(articles: seq<string>, b: string, bs: seq<string>)
    requires |articles| > 0 && BodyOf(articles[0], b)
    requires |bs| == |articles| - 1
    requires forall i :: 0 <= i < |articles[1..]| ==> BodyOf(articles[1..][i], bs[i])
    ensures forall i :: 0 <= i < |articles| ==> BodyOf(articles[i], ([b] + bs)[i])
  {
    forall i | 0 <= i < |articles|
      ensures BodyOf(articles[i], ([b] + bs)[i])
    {
      if i > 0 {
        assert articles[i] == articles[1..][i - 1];
      }
    }
  }
}
