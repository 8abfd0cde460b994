/** Which TeX files are kept: `_keep_only_referenced_tex` and `_add_root_tex_files`,
    and the `splits` dictionary they update. */
module Pruning {

  import opened Wrappers
  import opened Text
  import opened Paths
  import opened Filters

  /** The cleaned lines of each TeX file, keyed by its path. */
  type Contents = map<string, seq<string>>

  /** `base` occurs in `text` at `i` and is followed by '.' or '}'. */
  predicate ReferenceAt(text: string, base: string, i: int)
  {
    0 <= i && i + |base| < |text| && text[i..i + |base|] == base &&
    (text[i + |base|] == '.' || text[i + |base|] == '}')
  }

  /** `re.search('(' + base + '[.}])', text)`, with `base` taken as literal text. */
  predicate MentionsBase(text: string, base: string)
  {
    exists i :: 0 <= i < |text| && ReferenceAt(text, base, i)
  }

  /** The content of `from` refers to the file `to`: the test of the inner loop. */
  predicate Refs(contents: Contents, from: string, to: string)
    requires from in contents
  {
    MentionsBase(JoinLines(contents[from]), StripExt(to))
  }

  /** Some file in `s` refers to `fn`; `fn` itself counts. */
  predicate ReferencedIn(contents: Contents, s: set<string>, fn: string)
    requires s <= contents.Keys
  {
    exists from :: from in s && Refs(contents, from, fn)
  }

  /** One round of the loop: the root files, plus every file of `s` that some file
      of `s` refers to. */
  function Step(contents: Contents, roots: set<string>, s: set<string>): set<string>
    requires s <= contents.Keys
  {
    roots + set fn | fn in s && ReferencedIn(contents, s, fn)
  }

  lemma StepShrinks(contents: Contents, roots: set<string>, s: set<string>)
    requires roots <= s <= contents.Keys
    ensures roots <= Step(contents, roots, s) <= s
  {
  }

  /** A file of `c` referred to from `c` is also referred to from any superset of `c`. */
  lemma StepMonotone(contents: Contents, roots: set<string>, c: set<string>, s: set<string>)
    requires c <= s <= contents.Keys
    ensures Step(contents, roots, c) <= Step(contents, roots, s)
  {
    forall fn | fn in c && ReferencedIn(contents, c, fn)
      ensures ReferencedIn(contents, s, fn)
    {
      var from :| from in c && Refs(contents, from, fn);
      assert from in s;
    }
  }

  /** Every file of `universe` that a member of `s` refers to is a member of `s`. */
  predicate Closed(contents: Contents, universe: set<string>, s: set<string>)
    requires s <= contents.Keys
  {
    forall from, to :: from in s && to in universe && Refs(contents, from, to) ==> to in s
  }

  lemma StepPreservesClosed(contents: Contents, roots: set<string>, universe: set<string>, s: set<string>)
    requires roots <= s <= contents.Keys
    requires Closed(contents, universe, s)
    ensures Closed(contents, universe, Step(contents, roots, s))
  {
    var next := Step(contents, roots, s);
    StepShrinks(contents, roots, s);
    forall from, to | from in next && to in universe && Refs(contents, from, to)
      ensures to in next
    {
      assert to in s;
      assert ReferencedIn(contents, s, to);
    }
  }

  /** The loop of `_keep_only_referenced_tex` from the set `s`: repeat rounds until
      one changes nothing. */
  function Prune(contents: Contents, roots: set<string>, s: set<string>): (r: set<string>)
    requires roots <= s <= contents.Keys
    ensures roots <= r <= s
    ensures Step(contents, roots, r) == r
    ensures forall fn :: fn in r && fn !in roots ==> ReferencedIn(contents, r, fn)
    decreases s
  {
    StepShrinks(contents, roots, s);
    var next := Step(contents, roots, s);
    if next == s then s else Prune(contents, roots, next)
  }

  /** The result keeps every file of the universe that a kept file refers to. */
  lemma {:induction false} PruneClosed(contents: Contents, roots: set<string>, universe: set<string>, s: set<string>)
    requires roots <= s <= contents.Keys
    requires Closed(contents, universe, s)
    ensures Closed(contents, universe, Prune(contents, roots, s))
    decreases s
  {
    var next := Step(contents, roots, s);
    StepShrinks(contents, roots, s);
    if next != s {
      StepPreservesClosed(contents, roots, universe, s);
      PruneClosed(contents, roots, universe, next);
    }
  }

  /** The result is the greatest fixed point below `s`: any set of files in `s`
      whose non-root members are all referred to from inside the set is kept whole. */
  lemma {:induction false} PruneGreatest(contents: Contents, roots: set<string>, s: set<string>, c: set<string>)
    requires roots <= s <= contents.Keys
    requires c <= s
    requires forall fn :: fn in c && fn !in roots ==> ReferencedIn(contents, c, fn)
    ensures c <= Prune(contents, roots, s)
    decreases s
  {
    var next := Step(contents, roots, s);
    StepShrinks(contents, roots, s);
    StepMonotone(contents, roots, c, s);
    assert c <= Step(contents, roots, c);
    if next != s {
      PruneGreatest(contents, roots, next, c);
    }
  }

  lemma StripExtSimple(p: string, base: string)
    requires p == base + ".tex" && |base| == 1 && base[0] != '.' && base[0] != '/'
    ensures StripExt(p) == base
  {
    assert p[4] != '.' && p[3] != '.' && p[2] != '.' && p[1] == '.';
    assert p[..4][..3] == p[..3] && p[..3][..2] == p[..2];
    assert RFind(p, '.') == RFind(p[..2], '.') == 1;
    assert forall k :: 0 <= k < |p| ==> p[k] != '/';
    assert RFind(p, '/') == -1;
    assert p[0] == base[0];
    assert HasNonDot(p, 0, 1);
  }

  /** Files are not pruned by reachability from the root: two TeX files below the
      root that only refer to each other are both kept. */
  lemma MutualReferencesKept()
    ensures var contents := map["main.tex" := ["text"], "a.tex" := ["\\input{b}"], "b.tex" := ["\\input{a}"]];
      Prune(contents, {"main.tex"}, {"main.tex", "a.tex", "b.tex"}) == {"main.tex", "a.tex", "b.tex"}
  {
    var contents := map["main.tex" := ["text"], "a.tex" := ["\\input{b}"], "b.tex" := ["\\input{a}"]];
    var all := {"main.tex", "a.tex", "b.tex"};
    StripExtSimple("a.tex", "a");
    StripExtSimple("b.tex", "b");
    var ta, tb := JoinLines(contents["a.tex"]), JoinLines(contents["b.tex"]);
    assert ta[7..8] == "b" && ta[8] == '}';
    assert ReferenceAt(ta, "b", 7);
    assert Refs(contents, "a.tex", "b.tex");
    assert tb[7..8] == "a" && tb[8] == '}';
    assert ReferenceAt(tb, "a", 7);
    assert Refs(contents, "b.tex", "a.tex");
    assert ReferencedIn(contents, all, "a.tex") && ReferencedIn(contents, all, "b.tex");
    PruneGreatest(contents, {"main.tex"}, all, all);
  }

  /** A chain of references that starts at a root file and stays among the
      candidates: each file of `path` refers to the next one. */
  predicate IsReferenceChain(contents: Contents, roots: set<string>, universe: set<string>, path: seq<string>)
    requires universe <= contents.Keys
  {
    |path| >= 1 && path[0] in roots &&
    (forall k :: 0 <= k < |path| ==> path[k] in universe) &&
    forall k :: 0 <= k < |path| - 1 ==> Refs(contents, path[k], path[k + 1])
  }

  /** Every file reachable from a root file through references is kept. */
  lemma {:induction false} ChainKept(contents: Contents, roots: set<string>, universe: set<string>, path: seq<string>)
    requires roots <= universe <= contents.Keys
    requires IsReferenceChain(contents, roots, universe, path)
    ensures forall k :: 0 <= k < |path| ==> path[k] in Prune(contents, roots, universe)
    decreases |path|
  {
    var kept := Prune(contents, roots, universe);
    PruneClosed(contents, roots, universe, universe);
    if |path| > 1 {
      var init := path[..|path| - 1];
      assert IsReferenceChain(contents, roots, universe, init);
      ChainKept(contents, roots, universe, init);
      var k := |path| - 2;
      assert path[k] == init[k] && path[k] in kept;
      assert Refs(contents, path[k], path[k + 1]);
    }
  }

  /** A round that changes the set removes at least one non-root file. */
  lemma RoundShrinks(roots: set<string>, current: set<string>, previous: set<string>)
    requires roots <= current <= previous && current != previous
    ensures |current - roots| < |previous - roots|
  {
    assert !(previous <= current);
    var x :| x in previous && x !in current;
    assert previous - roots == (current - roots) + {x} + (previous - roots - current - {x});
  }

  lemma PruneUnfold(contents: Contents, roots: set<string>, s: set<string>)
    requires roots <= s <= contents.Keys
    ensures Step(contents, roots, s) == s ==> Prune(contents, roots, s) == s
    ensures Step(contents, roots, s) != s ==>
      Prune(contents, roots, s) == Prune(contents, roots, Step(contents, roots, s))
  {
  }

  /** The inner loop of one round, for the file `fn`: `fn` is added to `current`
      when some file of `previous` refers to it. */
  method AddIfReferenced(contents: Contents, previous: set<string>, fn: string, current: set<string>)
    returns (next: set<string>)
    requires previous <= contents.Keys
    ensures ReferencedIn(contents, previous, fn) ==> next == current + {fn}
    ensures !ReferencedIn(contents, previous, fn) ==> next == current
  {
    next := current;
    var inner := previous;
    while inner != {}
      invariant inner <= previous
      invariant next == current || next == current + {fn}
      invariant next == current + {fn} <== ReferencedIn(contents, previous - inner, fn)
      invariant next == current + {fn} && fn !in current ==> ReferencedIn(contents, previous - inner, fn)
      decreases inner
    {
      var fn2 :| fn2 in inner;
      if MentionsBase(JoinLines(contents[fn2]), StripExt(fn)) {
        next := next + {fn};
      }
      assert previous - (inner - {fn2}) == (previous - inner) + {fn2};
      inner := inner - {fn2};
    }
    assert previous - inner == previous;
  }

  /** One round of the loop: start from the root files and add each file of
      `previous` that some file of `previous` refers to. */
  method Round(contents: Contents, texInRoot: seq<string>, previous: set<string>)
    returns (current: set<string>)
    requires previous <= contents.Keys
    ensures current == Step(contents, Elems(texInRoot), previous)
  {
    current := Elems(texInRoot);
    var outer := previous;
    while outer != {}
      invariant outer <= previous
      invariant current == Elems(texInRoot) + set f | f in previous - outer && ReferencedIn(contents, previous, f)
      decreases outer
    {
      var fn :| fn in outer;
      current := AddIfReferenced(contents, previous, fn, current);
      assert previous - (outer - {fn}) == (previous - outer) + {fn};
      outer := outer - {fn};
    }
    assert previous - outer == previous;
  }

  /** The loop of `_keep_only_referenced_tex`. It starts from ALL TeX files and each
      round keeps the root files plus every file of the current set referred to from
      the current set; it stops when a round changes nothing. `rounds` counts the
      rounds, the last (unchanging) one included. */
  method ReferencedTexFiles(contents: Contents, texInRoot: seq<string>, texNotInRoot: seq<string>)
    returns (referenced: set<string>, ghost rounds: nat)
    requires Elems(texInRoot + texNotInRoot) <= contents.Keys
    ensures referenced == Prune(contents, Elems(texInRoot), Elems(texInRoot + texNotInRoot))
    ensures var universe, roots := Elems(texInRoot + texNotInRoot), Elems(texInRoot);
      1 <= rounds <= |universe - roots| + 1
  {
    ghost var universe := Elems(texInRoot + texNotInRoot);
    ghost var roots := Elems(texInRoot);
    assert roots <= universe;
    var previous := Elems(texInRoot + texNotInRoot);
    rounds := 0;
    while true
      invariant roots <= previous <= universe
      invariant Prune(contents, roots, previous) == Prune(contents, roots, universe)
      invariant rounds + |previous - roots| <= |universe - roots|
      decreases previous
    {
      var current := Round(contents, texInRoot, previous);
      StepShrinks(contents, roots, previous);
      PruneUnfold(contents, roots, previous);
      rounds := rounds + 1;
      if current == previous {
        referenced := current;
        return;
      }
      RoundShrinks(roots, current, previous);
      previous := current;
    }
  }

  /** `_add_root_tex_files` on a list: each root file not yet present is appended,
      in root order. */
  function AddMissing(toCopy: seq<string>, roots: seq<string>): seq<string>
    decreases |roots|
  {
    if roots == [] then toCopy
    else AddMissing(if roots[0] in toCopy then toCopy else toCopy + [roots[0]], roots[1..])
  }

  /** Entries already present keep their order and position. */
  lemma {:induction false} AddMissingPrefix(toCopy: seq<string>, roots: seq<string>)
    ensures var r := AddMissing(toCopy, roots); |toCopy| <= |r| && r[..|toCopy|] == toCopy
    decreases |roots|
  {
    if roots != [] {
      var next := if roots[0] in toCopy then toCopy else toCopy + [roots[0]];
      AddMissingPrefix(next, roots[1..]);
      var r := AddMissing(next, roots[1..]);
      assert r[..|toCopy|] == r[..|next|][..|toCopy|];
    }
  }

  /** Afterwards every root file is present. */
  lemma {:induction false} AddMissingHasRoots(toCopy: seq<string>, roots: seq<string>)
    ensures forall x :: x in roots + toCopy ==> x in AddMissing(toCopy, roots)
    decreases |roots|
  {
    if roots != [] {
      var next := if roots[0] in toCopy then toCopy else toCopy + [roots[0]];
      AddMissingHasRoots(next, roots[1..]);
      forall x | x in roots + toCopy
        ensures x in AddMissing(toCopy, roots)
      {
        if x in toCopy || x == roots[0] {
          assert x in next;
        } else {
          assert x in roots[1..];
        }
      }
    }
  }

  /** Only root files that were missing are appended, each once, in root order. */
  lemma {:induction false} AddMissingAppended(toCopy: seq<string>, roots: seq<string>)
    ensures var r := AddMissing(toCopy, roots);
      |toCopy| <= |r| &&
      (forall x :: x in r[|toCopy|..] ==> x in roots && x !in toCopy) &&
      NoDuplicates(r[|toCopy|..]) &&
      IsSubsequence(r[|toCopy|..], roots)
    decreases |roots|
  {
    AddMissingPrefix(toCopy, roots);
    if roots != [] {
      var next := if roots[0] in toCopy then toCopy else toCopy + [roots[0]];
      AddMissingAppended(next, roots[1..]);
      AddMissingPrefix(next, roots[1..]);
      var r := AddMissing(next, roots[1..]);
      var added := r[|next|..];
      SubsequenceOfSuffix(added, roots, 1);
      if roots[0] !in toCopy {
        AddedAfterFirst(toCopy, roots[0], r, roots);
      } else {
        assert r[|toCopy|..] == added;
      }
    }
  }

  /** The step of `AddMissingAppended` where the first root file was missing. */
  lemma AddedAfterFirst(toCopy: seq<string>, x: string, r: seq<string>, roots: seq<string>)
    requires roots != [] && roots[0] == x && x !in toCopy
    requires |toCopy + [x]| <= |r| && r[..|toCopy + [x]|] == toCopy + [x]
    requires forall y :: y in r[|toCopy| + 1..] ==> y in roots[1..] && y !in toCopy + [x]
    requires NoDuplicates(r[|toCopy| + 1..])
    requires IsSubsequence(r[|toCopy| + 1..], roots[1..])
    ensures forall y :: y in r[|toCopy|..] ==> y in roots && y !in toCopy
    ensures NoDuplicates(r[|toCopy|..])
    ensures IsSubsequence(r[|toCopy|..], roots)
  {
    var added := r[|toCopy| + 1..];
    var tail := r[|toCopy|..];
    assert tail[0] == x;
    assert tail[1..] == added;
    assert tail == [x] + added;
    forall y | y in tail
      ensures y in roots && y !in toCopy
    {
      if y != x {
        assert y in added;
        assert y in roots[1..] && y !in toCopy + [x];
      }
    }
    forall i, j | 0 <= i < j < |tail|
      ensures tail[i] != tail[j]
    {
      assert tail[j] == added[j - 1];
      if i > 0 {
        assert tail[i] == added[i - 1];
      } else {
        assert tail[j] in added;
        assert x in toCopy + [x];
      }
    }
  }

  /** When every root file is present, nothing is appended. */
  lemma {:induction false} AddMissingPresent(toCopy: seq<string>, roots: seq<string>)
    requires forall x :: x in roots ==> x in toCopy
    ensures AddMissing(toCopy, roots) == toCopy
    decreases |roots|
  {
    if roots != [] {
      assert roots[0] in toCopy;
      AddMissingPresent(toCopy, roots[1..]);
    }
  }

  /** A second call changes nothing. */
  lemma AddMissingIdempotent(toCopy: seq<string>, roots: seq<string>)
    ensures AddMissing(AddMissing(toCopy, roots), roots) == AddMissing(toCopy, roots)
  {
    AddMissingHasRoots(toCopy, roots);
    AddMissingPresent(AddMissing(toCopy, roots), roots);
  }

  /** `_keep_only_referenced_tex` starts every round from the root files, so the
      list it writes already holds them all and the `_add_root_tex_files` that
      follows it appends nothing. */
  lemma RootsAlreadyKept(contents: Contents, texInRoot: seq<string>, texNotInRoot: seq<string>,
                         texToCopy: seq<string>)
    requires Elems(texInRoot + texNotInRoot) <= contents.Keys
    requires Elems(texToCopy) == Prune(contents, Elems(texInRoot), Elems(texInRoot + texNotInRoot))
    ensures AddMissing(texToCopy, texInRoot) == texToCopy
  {
    var roots := Elems(texInRoot);
    assert roots <= Elems(texInRoot + texNotInRoot);
    forall x | x in texInRoot
      ensures x in texToCopy
    {
      assert x in roots;
      assert x in Elems(texToCopy);
    }
    AddMissingPresent(texToCopy, texInRoot);
  }

  /** `list(referenced)`: the members of a set, each once, in some order. */
  method ListOfSet(s: set<string>) returns (xs: seq<string>)
    ensures Elems(xs) == s
    ensures NoDuplicates(xs)
  {
    xs := [];
    var rest := s;
    while rest != {}
      invariant Elems(xs) + rest == s
      invariant Elems(xs) !! rest
      invariant NoDuplicates(xs)
      decreases rest
    {
      var x :| x in rest;
      assert x !in Elems(xs);
      assert Elems(xs + [x]) == Elems(xs) + {x};
      xs := xs + [x];
      rest := rest - {x};
    }
  }

  /** The `splits` dictionary: the file lists of `_split_all_files` and the entry
      'tex_to_copy', which is absent until `_keep_only_referenced_tex` writes it. */
  class Splits {
    const files: FileSplits
    var texToCopy: Option<seq<string>>

    constructor (files: FileSplits)
      ensures this.files == files && texToCopy == None
    {
      this.files := files;
      texToCopy := None;
    }

    /** `_keep_only_referenced_tex(contents, splits)`. Every TeX file must have an
        entry in `contents`, as the source's dictionary lookups demand. */
    method KeepOnlyReferencedTex(contents: Contents)
      requires Elems(files.texInRoot + files.texNotInRoot) <= contents.Keys
      modifies this`texToCopy
      ensures texToCopy.Some? && NoDuplicates(texToCopy.value)
      ensures Elems(texToCopy.value) ==
        Prune(contents, Elems(files.texInRoot), Elems(files.texInRoot + files.texNotInRoot))
    {
      var referenced;
      ghost var rounds;
      referenced, rounds := ReferencedTexFiles(contents, files.texInRoot, files.texNotInRoot);
      var listed := ListOfSet(referenced);
      texToCopy := Some(listed);
    }

    /** `_add_root_tex_files(splits)`: appends, in place, each root TeX file that
        'tex_to_copy' lacks. The entry must exist, as the source's lookup demands. */
    method AddRootTexFiles()
      requires texToCopy.Some?
      modifies this`texToCopy
      ensures texToCopy == Some(AddMissing(old(texToCopy).value, files.texInRoot))
    {
      var roots := files.texInRoot;
      var i := 0;
      while i < |roots|
        invariant 0 <= i <= |roots|
        invariant texToCopy.Some?
        invariant AddMissing(texToCopy.value, roots[i..]) == AddMissing(old(texToCopy).value, roots)
      {
        assert roots[i..][1..] == roots[i + 1..];
        if roots[i] !in texToCopy.value {
          texToCopy := Some(texToCopy.value + [roots[i]]);
        }
        i := i + 1;
      }
    }
  }
}
