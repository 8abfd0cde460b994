/** The list filters: `_keep_pattern`, `_remove_pattern`, `_keep_only_referenced`
    and the list arithmetic of `_split_all_files`. */
module Filters {

  import opened Text
  import opened Paths

  /** `matches(pattern, item)` tells whether `re.findall(pattern, item)` finds
      anything. Regular expressions themselves are not modelled. */
  type Matcher = (string, string) -> bool

  predicate AnyMatch(patterns: seq<string>, item: string, matches: Matcher)
  {
    exists p :: p in patterns && matches(p, item)
  }

  /** The items `_keep_pattern` keeps, in their order. */
  function KeptItems(haystack: seq<string>, patterns: seq<string>, matches: Matcher): seq<string>
  {
    Filter(haystack, item => AnyMatch(patterns, item, matches))
  }

  /** `_keep_pattern`: appends, in order, each item that some pattern matches. */
  method KeepPattern(haystack: seq<string>, patternsToKeep: seq<string>, matches: Matcher)
    returns (out: seq<string>)
    ensures out == KeptItems(haystack, patternsToKeep, matches)
    ensures IsSubsequence(out, haystack)
    ensures forall x :: x in out <==> x in haystack && AnyMatch(patternsToKeep, x, matches)
  {
    out := [];
    for i := 0 to |haystack|
      invariant out == KeptItems(haystack[..i], patternsToKeep, matches)
    {
      assert haystack[..i + 1][..i] == haystack[..i];
      if exists p :: p in patternsToKeep && matches(p, haystack[i]) {
        out := out + [haystack[i]];
      }
    }
    assert haystack[..|haystack|] == haystack;
  }

  /** `_remove_pattern`: the items that are not in what `_keep_pattern` keeps,
      that is, the items no pattern matches, in their order. */
  function RemovePattern(haystack: seq<string>, patternsToRemove: seq<string>, matches: Matcher): (r: seq<string>)
    ensures IsSubsequence(r, haystack)
    ensures forall x :: x in r <==> x in haystack && !AnyMatch(patternsToRemove, x, matches)
  {
    var kept := KeptItems(haystack, patternsToRemove, matches);
    Filter(haystack, item => item !in kept)
  }

  /** What `_keep_pattern` keeps and what `_remove_pattern` keeps partition the
      input, duplicates included. */
  lemma KeepRemovePartition(haystack: seq<string>, patterns: seq<string>, matches: Matcher)
    ensures multiset(KeptItems(haystack, patterns, matches)) + multiset(RemovePattern(haystack, patterns, matches))
            == multiset(haystack)
  {
    var kept := KeptItems(haystack, patterns, matches);
    var removed := RemovePattern(haystack, patterns, matches);
    assert removed == Filter(haystack, item => item !in kept);
    forall x
      ensures (multiset(kept) + multiset(removed))[x] == multiset(haystack)[x]
    {
      if x !in haystack {
        assert multiset(haystack)[x] == 0;
      }
    }
  }

  /** `os.path.splitext(fn)[0] in contents`. */
  predicate IsReferenced(fn: string, contents: string)
  {
    IsSubstring(StripExt(fn), contents)
  }

  /** `_keep_only_referenced`: the file names whose extension-stripped name occurs
      in `contents`, in their order and with their duplicates. */
  function KeepOnlyReferenced(filenames: seq<string>, contents: string): (r: seq<string>)
    ensures IsSubsequence(r, filenames)
    ensures forall fn :: fn in r <==> fn in filenames && IsReferenced(fn, contents)
    ensures forall fn :: multiset(r)[fn] == (if IsReferenced(fn, contents) then multiset(filenames)[fn] else 0)
  {
    Filter(filenames, fn => IsReferenced(fn, contents))
  }

  /** The lists `_split_all_files` computes. `all` and `inRoot` come from listing the
      input folder, which is not modelled. */
  datatype FileSplits = FileSplits(
    all: seq<string>,
    inRoot: seq<string>,
    notInRoot: seq<string>,
    toCopyInRoot: seq<string>,
    toCopyNotInRoot: seq<string>,
    figures: seq<string>,
    texInRoot: seq<string>,
    texNotInRoot: seq<string>,
    nonTexInRoot: seq<string>,
    nonTexNotInRoot: seq<string>)

  /** The pattern that selects TeX files. */
  const TexPattern: string := ".tex$"

  lemma AnyMatchSingle(pattern: string, item: string, matches: Matcher)
    ensures AnyMatch([pattern], item, matches) <==> matches(pattern, item)
  {
    if matches(pattern, item) {
      assert pattern in [pattern];
    }
  }

  /** The list arithmetic of `_split_all_files`. */
  function SplitAllFiles(all: seq<string>, inRoot: seq<string>, toDelete: seq<string>,
                         figuresToCopyIfReferenced: seq<string>, matches: Matcher): (s: FileSplits)
    ensures s.all == all && s.inRoot == inRoot
    ensures IsSubsequence(s.notInRoot, all)
    ensures forall f :: f in s.notInRoot <==> f in all && f !in inRoot
    ensures forall f :: f in s.toCopyInRoot <==>
      f in inRoot && !AnyMatch(toDelete + figuresToCopyIfReferenced, f, matches)
    ensures forall f :: f in s.toCopyNotInRoot <==>
      f in s.notInRoot && !AnyMatch(toDelete + figuresToCopyIfReferenced, f, matches)
    ensures forall f :: f in s.figures <==> f in all && AnyMatch(figuresToCopyIfReferenced, f, matches)
    // TeX and non-TeX files partition the files to copy, in the root and below it
    ensures multiset(s.texInRoot) + multiset(s.nonTexInRoot) == multiset(s.toCopyInRoot)
    ensures multiset(s.texNotInRoot) + multiset(s.nonTexNotInRoot) == multiset(s.toCopyNotInRoot)
    ensures forall f :: f in s.texInRoot + s.texNotInRoot ==> matches(TexPattern, f)
    ensures forall f :: f in s.nonTexInRoot + s.nonTexNotInRoot ==> !matches(TexPattern, f)
    // every list keeps the order of the list it is drawn from
    ensures IsSubsequence(s.toCopyInRoot, inRoot) && IsSubsequence(s.toCopyNotInRoot, s.notInRoot)
    ensures IsSubsequence(s.figures, all)
    ensures IsSubsequence(s.texInRoot, s.toCopyInRoot) && IsSubsequence(s.nonTexInRoot, s.toCopyInRoot)
    ensures IsSubsequence(s.texNotInRoot, s.toCopyNotInRoot) && IsSubsequence(s.nonTexNotInRoot, s.toCopyNotInRoot)
  {
    var notInRoot := Filter(all, f => f !in inRoot);
    var excluded := toDelete + figuresToCopyIfReferenced;
    var toCopyInRoot := RemovePattern(inRoot, excluded, matches);
    var toCopyNotInRoot := RemovePattern(notInRoot, excluded, matches);
    var figures := KeptItems(all, figuresToCopyIfReferenced, matches);
    var texInRoot := KeptItems(toCopyInRoot, [TexPattern], matches);
    var texNotInRoot := KeptItems(toCopyNotInRoot, [TexPattern], matches);
    var nonTexInRoot := RemovePattern(toCopyInRoot, [TexPattern], matches);
    var nonTexNotInRoot := RemovePattern(toCopyNotInRoot, [TexPattern], matches);
    KeepRemovePartition(toCopyInRoot, [TexPattern], matches);
    KeepRemovePartition(toCopyNotInRoot, [TexPattern], matches);
    assert forall f :: AnyMatch([TexPattern], f, matches) <==> matches(TexPattern, f) by {
      forall f ensures AnyMatch([TexPattern], f, matches) <==> matches(TexPattern, f) {
        AnyMatchSingle(TexPattern, f, matches);
      }
    }
    FileSplits(all, inRoot, notInRoot, toCopyInRoot, toCopyNotInRoot, figures,
               texInRoot, texNotInRoot, nonTexInRoot, nonTexNotInRoot)
  }
}
