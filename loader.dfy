/** The cache-or-parse loader of seg.py (`pickle_name`, `load_new_file`,
    `load_pickled`, `load_file`, `load_multiple`).

    The file system is two maps from paths to contents: the corpus text files
    under `DATA_DIR`, and the pickle files under `PICKLE_DIR`. A pickle file
    holds either a list of bodies or Python's `None`. */
module Loader {
  import opened Common
  import opened Splitter
  import opened Corpus

  /** `DATA_DIR`: where the corpus text files live. */
  const DataDir: string := "./data/geopolitical"
  /** `PICKLE_DIR`: where the cached lists of bodies live. */
  const PickleDir: string := "./.pickled"
  /** The step name under which `load_new_file` caches its bodies. */
  const SplitStep: string := "split"

  /** Corpus text files, by path. */
  type Sources = map<string, string>
  /** Pickle files, by path; `None` is a pickled `None`. */
  type Pickles = map<string, Option<seq<string>>>

  /** `pickle_name`: `PICKLE_DIR/basename-stepname.pkl`. */
  function PickleName(basename: string, stepname: string): (path: string)
    ensures |path| == |PickleDir| + |basename| + |stepname| + 6
    ensures path[..|PickleDir| + 1] == PickleDir + "/"
    ensures path[|path| - 4..] == ".pkl"
  {
    PickleDir + "/" + basename + "-" + stepname + ".pkl"
  }

  /** The corpus file of a basename: `DATA_DIR/basename.txt`. */
  function SourceName(basename: string): (path: string)
    ensures |path| == |DataDir| + |basename| + 5
    ensures path[..|DataDir| + 1] == DataDir + "/"
    ensures path[|path| - 4..] == ".txt"
  {
    DataDir + "/" + basename + ".txt"
  }

  /** Different basenames have different cache paths for the same step, so
      one basename's cache key never answers for another. Paths are compared
      as strings: two spellings of one file are two keys. */
  lemma PickleNameInjective(b1: string, b2: string, stepname: string)
    ensures PickleName(b1, stepname) == PickleName(b2, stepname) <==> b1 == b2
  {
    if PickleName(b1, stepname) == PickleName(b2, stepname) {
      var p1, p2 := PickleName(b1, stepname), PickleName(b2, stepname);
      var n := |PickleDir| + 1;
      assert p1[n..n + |b1|] == b1;
      assert p2[n..n + |b2|] == b2;
    }
  }

  /** Different basenames have different corpus paths, compared as strings. */
  lemma SourceNameInjective(b1: string, b2: string)
    ensures SourceName(b1) == SourceName(b2) <==> b1 == b2
  {
    if SourceName(b1) == SourceName(b2) {
      var p1, p2 := SourceName(b1), SourceName(b2);
      var n := |DataDir| + 1;
      assert p1[n..n + |b1|] == b1;
      assert p2[n..n + |b2|] == b2;
    }
  }

  /** The bodies `load_new_file` computes for a basename, before it caches
      them: the corpus file must exist, and every article must be well formed. */
  function ParseSource(texts: Sources, basename: string): (r: Result<seq<string>>)
    ensures r == Err(MissingSource(SourceName(basename))) <==> SourceName(basename) !in texts
    ensures r.Ok? ==> |r.value| == CountDelims(texts[SourceName(basename)], ArticleMarker, 0)
  {
    var filename := SourceName(basename);
    if filename !in texts then Err(MissingSource(filename))
    else ParseCorpus(texts[filename])
  }

  /** `load_pickled`: the cached payload, which must not be `None`. */
  function Unpickle(pickles: Pickles, filename: string): (r: Result<seq<string>>)
    requires filename in pickles
    ensures r.Ok? <==> pickles[filename].Some?
    ensures r.Ok? ==> Some(r.value) == pickles[filename]
    ensures r.Err? ==> r.error == CorruptCache(filename)
  {
    match pickles[filename]
    case None => Err(CorruptCache(filename))
    case Some(data) => Ok(data)
  }

  /** `p2` keeps every cache file of `p1` unchanged. */
  predicate Extends(p2: Pickles, p1: Pickles)
  {
    forall path :: path in p1 ==> path in p2 && p2[path] == p1[path]
  }

  /** `load_file`, as a function of the file system: the result and the new
      pickle files. A cache hit answers from the cache alone; a miss parses
      the corpus file and caches the bodies when that succeeds. */
  function Load(texts: Sources, pickles: Pickles, basename: string): (r: (Result<seq<string>>, Pickles))
    ensures Extends(r.1, pickles)
    ensures r.0.Ok? ==> PickleName(basename, SplitStep) in r.1 && r.1[PickleName(basename, SplitStep)] == Some(r.0.value)
  {
    var filename := PickleName(basename, SplitStep);
    if filename in pickles then (Unpickle(pickles, filename), pickles)
    else
      match ParseSource(texts, basename)
      case Err(e) => (Err(e), pickles)
      case Ok(bodies) => (Ok(bodies), pickles[filename := Some(bodies)])
  }

  /** `load_multiple`: the basenames are loaded in order and their bodies
      concatenated; the first failure ends the run, and what was cached
      before it stays cached. */
  function LoadAll(texts: Sources, pickles: Pickles, basenames: seq<string>): (r: (Result<seq<string>>, Pickles))
    ensures Extends(r.1, pickles)
    decreases |basenames|
  {
    if basenames == [] then (Ok([]), pickles)
    else
      var (first, p1) := Load(texts, pickles, basenames[0]);
      match first
      case Err(e) => (Err(e), p1)
      case Ok(bodies) => After(bodies, LoadAll(texts, p1, basenames[1..]))
  }

  /** The outcome of a run that had already gathered `bodies`. */
  function After(bodies: seq<string>, rest: (Result<seq<string>>, Pickles)): (r: (Result<seq<string>>, Pickles))
    ensures r.1 == rest.1 && r.0.Ok? == rest.0.Ok?
    ensures r.0.Ok? ==> && |r.0.value| == |bodies| + |rest.0.value|
                        && r.0.value[..|bodies|] == bodies && r.0.value[|bodies|..] == rest.0.value
  {
    match rest.0
    case Err(e) => (Err(e), rest.1)
    case Ok(more) => (Ok(bodies + more), rest.1)
  }

  // ----- properties of the cache -----

  /** A cache hit returns the cached bodies and consults no corpus file:
      whatever the corpus files hold, the outcome is the same. */
  lemma CacheHit(pickles: Pickles, basename: string, bodies: seq<string>)
    requires PickleName(basename, SplitStep) in pickles
    requires pickles[PickleName(basename, SplitStep)] == Some(bodies)
    ensures forall other: Sources {:trigger Load(other, pickles, basename)} ::
              Load(other, pickles, basename) == (Ok(bodies), pickles)
  {
  }

  /** A cached `None` is rejected. */
  lemma CacheCorrupt(texts: Sources, pickles: Pickles, basename: string)
    requires PickleName(basename, SplitStep) in pickles
    requires pickles[PickleName(basename, SplitStep)] == None
    ensures Load(texts, pickles, basename) == (Err(CorruptCache(PickleName(basename, SplitStep))), pickles)
  {
  }

  /** A cache miss parses the corpus file; on success the bodies are stored
      under the basename's cache file and nothing else changes, on failure
      nothing is stored. */
  lemma CacheMiss(texts: Sources, pickles: Pickles, basename: string)
    requires PickleName(basename, SplitStep) !in pickles
    ensures Load(texts, pickles, basename).0 == ParseSource(texts, basename)
    ensures Load(texts, pickles, basename).1 ==
              if ParseSource(texts, basename).Ok?
              then pickles[PickleName(basename, SplitStep) := Some(ParseSource(texts, basename).value)]
              else pickles
  {
  }

  /** Loading a basename a second time, with the cache the first load left
      behind, returns the identical bodies, even if the corpus files have
      changed or gone, and changes nothing. */
  lemma LoadTwice(texts: Sources, pickles: Pickles, basename: string, later: Sources)
    requires Load(texts, pickles, basename).0.Ok?
    ensures Load(later, Load(texts, pickles, basename).1, basename) == Load(texts, pickles, basename)
  {
  }

  /** A whole run, repeated on the cache it left behind, gives the same
      bodies and leaves the cache as it was: every basename is then a hit. */
  lemma {:induction false} LoadAllTwice(texts: Sources, pickles: Pickles, basenames: seq<string>, later: Sources)
    requires LoadAll(texts, pickles, basenames).0.Ok?
    ensures LoadAll(later, LoadAll(texts, pickles, basenames).1, basenames) == LoadAll(texts, pickles, basenames)
    decreases |basenames|
  {
    if basenames != [] {
      var (first, p1) := Load(texts, pickles, basenames[0]);
      var (rest, p2) := LoadAll(texts, p1, basenames[1..]);
      LoadAllTwice(texts, p1, basenames[1..], later);
      var key := PickleName(basenames[0], SplitStep);
      assert p2[key] == Some(first.value);
      CacheHit(p2, basenames[0], first.value);
    }
  }

  /** The concatenation of the cached bodies of the basenames, in order. */
  function CachedBodies(pickles: Pickles, basenames: seq<string>): seq<string>
    requires forall b :: b in basenames ==> PickleName(b, SplitStep) in pickles && pickles[PickleName(b, SplitStep)].Some?
  {
    if basenames == [] then []
    else pickles[PickleName(basenames[0], SplitStep)].value + CachedBodies(pickles, basenames[1..])
  }

  /** When every basename is cached, a run returns the cached bodies
      concatenated in the order the basenames are given, and writes nothing. */
  lemma {:induction false} LoadAllCached(texts: Sources, pickles: Pickles, basenames: seq<string>)
    requires forall b :: b in basenames ==> PickleName(b, SplitStep) in pickles && pickles[PickleName(b, SplitStep)].Some?
    ensures LoadAll(texts, pickles, basenames) == (Ok(CachedBodies(pickles, basenames)), pickles)
    decreases |basenames|
  {
    if basenames != [] {
      assert basenames[0] in basenames;
      CacheHit(pickles, basenames[0], pickles[PickleName(basenames[0], SplitStep)].value);
      assert forall b :: b in basenames[1..] ==> b in basenames;
      LoadAllCached(texts, pickles, basenames[1..]);
    }
  }

  /** The file system the loader works on. */
  class Disk {
    /** The corpus text files. */
    var texts: Sources
    /** The pickle files; the loader adds to them. */
    var pickles: Pickles

    constructor (texts: Sources, pickles: Pickles)
      ensures this.texts == texts && this.pickles == pickles
    {
      this.texts := texts;
      this.pickles := pickles;
    }

    /** `load_new_file`: parse the basename's corpus file and cache the bodies. */
    method LoadNewFile(basename: string) returns (r: Result<seq<string>>)
      modifies this
      ensures texts == old(texts)
      ensures r == ParseSource(texts, basename)
      ensures pickles == if r.Ok? then old(pickles)[PickleName(basename, SplitStep) := Some(r.value)]
                         else old(pickles)
    {
      var filename := SourceName(basename);
      if filename !in texts {
        return Err(MissingSource(filename));
      }
      var corpus := texts[filename];
      r := ParseCorpus(corpus);
      if r.Ok? {
        pickles := pickles[PickleName(basename, SplitStep) := Some(r.value)];
      }
    }

    /** `load_pickled`: read a cache file that exists. */
    method LoadPickled(filename: string) returns (r: Result<seq<string>>)
      requires filename in pickles
      ensures r == Unpickle(pickles, filename)
    {
      var data := pickles[filename];
      if data.None? {
        return Err(CorruptCache(filename));
      }
      r := Ok(data.value);
    }

    /** `load_file`: answer from the cache when the cache file exists,
        otherwise parse the corpus file. */
    method LoadFile(basename: string) returns (r: Result<seq<string>>)
      modifies this
      ensures texts == old(texts)
      ensures (r, pickles) == Load(old(texts), old(pickles), basename)
    {
      var filename := PickleName(basename, SplitStep);
      if filename in pickles {
        r := LoadPickled(filename);
      } else {
        r := LoadNewFile(basename);
      }
    }

    /** `load_multiple`: load each basename in turn and gather the bodies. */
    method LoadMultiple(basenames: seq<string>) returns (r: Result<seq<string>>)
      modifies this
      ensures texts == old(texts)
      ensures (r, pickles) == LoadAll(old(texts), old(pickles), basenames)
    {
      var articles: seq<string> := [];
      var i := 0;
      while i < |basenames|
        invariant 0 <= i <= |basenames|
        invariant texts == old(texts)
        invariant LoadAll(texts, old(pickles), basenames) == After(articles, LoadAll(texts, pickles, basenames[i..]))
      {
        assert basenames[i..][1..] == basenames[i + 1..];
        ghost var before := pickles;
        var bodies := LoadFile(basenames[i]);
        if bodies.Err? {
          assert LoadAll(texts, before, basenames[i..]) == (bodies, pickles);
          assert After(articles, (bodies, pickles)) == (bodies, pickles);
          return Err(bodies.error);
        }
        AfterAfter(articles, bodies.value, LoadAll(texts, pickles, basenames[i + 1..]));
        articles := articles + bodies.value;
        i := i + 1;
      }
      assert basenames[i..] == [];
      assert articles + [] == articles;
      r := Ok(articles);
    }
  }

  lemma AfterAfter(xs: seq<string>, ys: seq<string>, rest: (Result<seq<string>>, Pickles))
    ensures After(xs, After(ys, rest)) == After(xs + ys, rest)
  {
    if rest.0.Ok? {
      assert xs + (ys + rest.0.value) == (xs + ys) + rest.0.value;
    }
  }
}
