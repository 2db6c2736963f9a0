/**
 * `readDir` (index.js, lines 20-32) over a directory tree held in memory:
 * what `fs.readdirSync` lists and what `fs.statSync(...).isDirectory()`
 * answers for each entry.
 */
module TreeWalk {
  import opened Seqs

  /**
   * A directory entry as `fs.statSync(...).isDirectory()` sees it: anything
   * that is not a directory (a regular file, a FIFO, a socket, a link to a
   * file), or a directory with its own listing.
   */
  datatype Node = File(name: string) | Dir(name: string, entries: seq<Node>)

  /** `path.join(dir, name)` for a plain entry name. */
  function Join(dir: string, name: string): string
  {
    dir + "/" + name
  }

  /** The paths readDir(dir) returns, given that readdirSync(dir) lists entries. */
  function Listing(dir: string, entries: seq<Node>): seq<string>
    decreases entries
  {
    if entries == [] then [] else NodeListing(dir, entries[0]) + Listing(dir, entries[1..])
  }

  /** What one listed entry contributes: its own path, or everything below it. */
  function NodeListing(dir: string, node: Node): seq<string>
    decreases node
  {
    match node
    case File(n) => [Join(dir, n)]
    case Dir(n, es) => Listing(Join(dir, n), es)
  }

  lemma {:induction false} ListingAppend(dir: string, a: seq<Node>, b: seq<Node>)
    decreases |a|
    ensures Listing(dir, a + b) == Listing(dir, a) + Listing(dir, b)
  {
    if a == [] {
      assert [] + b == b;
    } else {
      assert (a + b)[0] == a[0];
      assert (a + b)[1..] == a[1..] + b;
      ListingAppend(dir, a[1..], b);
    }
  }

  /**
   * readDir: for each listed entry in turn, a directory's files (read
   * recursively) are concatenated and a file's path is pushed.
   */
  method ReadDir(dir: string, entries: seq<Node>) returns (fileList: seq<string>)
    decreases entries
    ensures fileList == Listing(dir, entries)
  {
    fileList := [];
    for i := 0 to |entries|
      invariant fileList == Listing(dir, entries[..i])
    {
      var file := entries[i];
      PrefixSnoc(entries, i);
      ListingAppend(dir, entries[..i], [file]);
      match file {
        case Dir(name, children) =>
          var sub := ReadDir(Join(dir, name), children);
          fileList := fileList + sub;
        case File(name) =>
          fileList := fileList + [Join(dir, name)];
      }
    }
    assert entries[..|entries|] == entries;
  }

  /** p is the path of a non-directory entry somewhere below dir. */
  ghost predicate FileUnder(dir: string, entries: seq<Node>, p: string)
    decreases entries
  {
    exists i :: 0 <= i < |entries| && FileIn(dir, entries[i], p)
  }

  /** p is the path of the non-directory node itself, or of one below the directory node. */
  ghost predicate FileIn(dir: string, node: Node, p: string)
    decreases node
  {
    match node
    case File(n) => p == Join(dir, n)
    case Dir(n, es) => FileUnder(Join(dir, n), es, p)
  }

  /** readDir lists the non-directory entries below dir, and nothing else: directories never appear. */
  lemma {:induction false} ListingIsFiles(dir: string, entries: seq<Node>, p: string)
    decreases entries
    ensures p in Listing(dir, entries) <==> FileUnder(dir, entries, p)
  {
    if entries != [] {
      var e, rest := entries[0], entries[1..];
      ListingIsFiles(dir, rest, p);
      NodeListingIsFiles(dir, e, p);
      if p in Listing(dir, rest) {
        var j :| 0 <= j < |rest| && FileIn(dir, rest[j], p);
        assert entries[j + 1] == rest[j];
      }
      if FileUnder(dir, entries, p) {
        var i :| 0 <= i < |entries| && FileIn(dir, entries[i], p);
        if i > 0 {
          assert rest[i - 1] == entries[i];
        }
      }
    }
  }

  lemma {:induction false} NodeListingIsFiles(dir: string, node: Node, p: string)
    decreases node
    ensures p in NodeListing(dir, node) <==> FileIn(dir, node, p)
  {
    match node
    case File(n) =>
    case Dir(n, es) => ListingIsFiles(Join(dir, n), es, p);
  }

  predicate IsPrefix(pre: string, p: string)
  {
    |pre| <= |p| && p[..|pre|] == pre
  }

  /** p is the path of the entry called name in dir, or a path below it. */
  predicate Under(dir: string, name: string, p: string)
  {
    p == Join(dir, name) || IsPrefix(Join(dir, name) + "/", p)
  }

  /** Each listed path lies under the listed entry it came from. */
  lemma {:induction false} ListingUnder(dir: string, entries: seq<Node>)
    decreases entries
    ensures forall p :: p in Listing(dir, entries) ==>
      exists i :: 0 <= i < |entries| && Under(dir, entries[i].name, p)
  {
    if entries != [] {
      var e, rest := entries[0], entries[1..];
      ListingUnder(dir, rest);
      NodeListingUnder(dir, e);
      forall p | p in Listing(dir, entries)
        ensures exists i :: 0 <= i < |entries| && Under(dir, entries[i].name, p)
      {
        if p in NodeListing(dir, e) {
          assert Under(dir, entries[0].name, p);
        } else {
          assert p in Listing(dir, rest);
          var j :| 0 <= j < |rest| && Under(dir, rest[j].name, p);
          assert entries[j + 1] == rest[j];
        }
      }
    }
  }

  lemma {:induction false} NodeListingUnder(dir: string, node: Node)
    decreases node
    ensures forall p :: p in NodeListing(dir, node) ==> Under(dir, node.name, p)
  {
    match node
    case File(n) =>
    case Dir(n, es) =>
      var d := Join(dir, n);
      ListingUnder(d, es);
      forall p | p in Listing(d, es) ensures IsPrefix(d + "/", p) {
        var i :| 0 <= i < |es| && Under(d, es[i].name, p);
        var pre := Join(d, es[i].name);
        assert (pre + "/")[..|d| + 1] == d + "/";
        assert pre[..|d| + 1] == d + "/";
      }
  }

  /** Entry names as a file system gives them: no `/` inside, no two alike in one directory. */
  ghost predicate WellNamed(entries: seq<Node>)
    decreases entries
  {
    && (forall i :: 0 <= i < |entries| ==> '/' !in entries[i].name)
    && (forall i, j :: 0 <= i < j < |entries| ==> entries[i].name != entries[j].name)
    && (forall i :: 0 <= i < |entries| && entries[i].Dir? ==> WellNamed(entries[i].entries))
  }

  lemma UnderDisjointShorter(dir: string, a: string, b: string, p: string, q: string)
    requires |a| <= |b| && a != b && '/' !in a && '/' !in b
    requires Under(dir, a, p) && Under(dir, b, q)
    ensures p != q
  {
    var d := |dir| + 1;
    assert p[..d + |a|] == Join(dir, a) by {
      if p != Join(dir, a) {
        assert (Join(dir, a) + "/")[..d + |a|] == Join(dir, a);
      }
    }
    assert q[..d + |b|] == Join(dir, b) by {
      if q != Join(dir, b) {
        assert (Join(dir, b) + "/")[..d + |b|] == Join(dir, b);
      }
    }
    if a == b[..|a|] {
      assert |a| < |b|;
      assert q[d + |a|] == b[|a|] != '/';
      if p != Join(dir, a) {
        assert p[d + |a|] == (Join(dir, a) + "/")[d + |a|] == '/';
      }
    } else {
      var t :| 0 <= t < |a| && a[t] != b[t];
      assert p[d + t] == Join(dir, a)[d + t] == a[t];
      assert q[d + t] == Join(dir, b)[d + t] == b[t];
    }
  }

  /** Paths under two differently named entries of one directory are different. */
  lemma UnderDisjoint(dir: string, a: string, b: string, p: string, q: string)
    requires a != b && '/' !in a && '/' !in b
    requires Under(dir, a, p) && Under(dir, b, q)
    ensures p != q
  {
    if |a| <= |b| {
      UnderDisjointShorter(dir, a, b, p, q);
    } else {
      UnderDisjointShorter(dir, b, a, q, p);
    }
  }

  /** With well-formed names, readDir lists no path twice. */
  lemma {:induction false} ListingDistinct(dir: string, entries: seq<Node>)
    requires WellNamed(entries)
    decreases entries
    ensures Distinct(Listing(dir, entries))
  {
    if entries != [] {
      var e, rest := entries[0], entries[1..];
      assert WellNamed(rest) by {
        forall i | 0 <= i < |rest| && rest[i].Dir? ensures WellNamed(rest[i].entries) {
          assert rest[i] == entries[i + 1];
        }
        forall i, j | 0 <= i < j < |rest| ensures rest[i].name != rest[j].name {
          assert rest[i] == entries[i + 1] && rest[j] == entries[j + 1];
        }
      }
      ListingDistinct(dir, rest);
      if e.Dir? {
        ListingDistinct(Join(dir, e.name), e.entries);
      }
      NodeListingUnder(dir, e);
      ListingUnder(dir, rest);
      forall p, q | p in NodeListing(dir, e) && q in Listing(dir, rest) ensures p != q {
        var j :| 0 <= j < |rest| && Under(dir, rest[j].name, q);
        assert rest[j] == entries[j + 1];
        UnderDisjoint(dir, e.name, rest[j].name, p, q);
      }
      DistinctConcat(NodeListing(dir, e), Listing(dir, rest));
    }
  }

  /**
   * readDir returns every non-directory entry below the root exactly once, and no
   * directory; the order is depth-first in listing order, as Listing gives it.
   */
  lemma EveryFileOnce(dir: string, entries: seq<Node>)
    requires WellNamed(entries)
    ensures Distinct(Listing(dir, entries))
    ensures forall p :: p in Listing(dir, entries) <==> FileUnder(dir, entries, p)
  {
    ListingDistinct(dir, entries);
    forall p ensures p in Listing(dir, entries) <==> FileUnder(dir, entries, p) {
      ListingIsFiles(dir, entries, p);
    }
  }
}
