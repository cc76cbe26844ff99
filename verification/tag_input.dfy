/** The tag editor (`components/ui/tag-input.tsx`): a list of distinct
    tags edited from a text box, submitted as one comma-separated hidden
    value. */
module TagInput {
  import opened Text
  import opened Seqs

  predicate NoDuplicates(xs: seq<string>) {
    forall i, j :: 0 <= i < j < |xs| ==> xs[i] != xs[j]
  }

  /** The position of the first occurrence of `x` in `xs`. */
  function FirstIndex(xs: seq<string>, x: string): (i: nat)
    requires x in xs
    ensures i < |xs| && xs[i] == x
    ensures forall k :: 0 <= k < i ==> xs[k] != x
  {
    if xs[0] == x then 0 else 1 + FirstIndex(xs[1..], x)
  }

  /** A position holding `x` with no `x` before it is the first occurrence. */
  lemma FirstIndexAt(xs: seq<string>, x: string, i: nat)
    requires i < |xs| && xs[i] == x
    requires forall k :: 0 <= k < i ==> xs[k] != x
    ensures FirstIndex(xs, x) == i
  {
  }

  /** Appending an element moves no first occurrence, and a new element's
      first occurrence is the appended position. */
  lemma FirstIndexSnoc(xs: seq<string>, x: string, y: string)
    requires y in xs + [x]
    ensures y in xs ==> FirstIndex(xs + [x], y) == FirstIndex(xs, y)
    ensures y !in xs ==> FirstIndex(xs + [x], y) == |xs|
  {
    var ys := xs + [x];
    if y in xs {
      FirstIndexAt(ys, y, FirstIndex(xs, y));
    } else {
      FirstIndexAt(ys, y, |xs|);
    }
  }

  /** `Array.from(new Set(xs))`: each value once, at its first occurrence. */
  function Dedup(xs: seq<string>): (r: seq<string>)
    ensures NoDuplicates(r)
    ensures forall x :: x in r <==> x in xs
    ensures |r| <= |xs|
  {
    if |xs| == 0 then []
    else
      var d := Dedup(xs[..|xs| - 1]);
      var x := xs[|xs| - 1];
      assert xs == xs[..|xs| - 1] + [x];
      if x in d then d else d + [x]
  }

  /** The values kept by `Dedup` come in the order of their first
      occurrences: a set iterates in insertion order, and inserting a value
      already present does not move it. */
  lemma {:induction false} DedupKeepsFirstOccurrenceOrder(xs: seq<string>)
    ensures forall i, j :: 0 <= i < j < |Dedup(xs)| ==> FirstIndex(xs, Dedup(xs)[i]) < FirstIndex(xs, Dedup(xs)[j])
  {
    if |xs| > 0 {
      var init, x := xs[..|xs| - 1], xs[|xs| - 1];
      var d := Dedup(init);
      assert xs == init + [x];
      DedupKeepsFirstOccurrenceOrder(init);
      forall y | y in d
        ensures FirstIndex(xs, y) == FirstIndex(init, y) < |init|
      {
        FirstIndexSnoc(init, x, y);
      }
      if x !in d {
        FirstIndexSnoc(init, x, x);
        assert Dedup(xs) == d + [x];
      }
    }
  }

  /** A list that already has no duplicates is left as it is. */
  lemma {:induction false} DedupOfDistinct(xs: seq<string>)
    requires NoDuplicates(xs)
    ensures Dedup(xs) == xs
  {
    if |xs| > 0 {
      var init, x := xs[..|xs| - 1], xs[|xs| - 1];
      assert NoDuplicates(init) by {
        forall i, j | 0 <= i < j < |init|
          ensures init[i] != init[j]
        {
          assert init[i] == xs[i] && init[j] == xs[j];
        }
      }
      DedupOfDistinct(init);
      assert x !in init by {
        forall k | 0 <= k < |init|
          ensures init[k] != x
        {
          assert init[k] == xs[k];
        }
      }
      assert Dedup(xs) == Dedup(init) + [x];
    }
  }

  /** Deduplicating twice is deduplicating once. */
  lemma DedupIdempotent(xs: seq<string>)
    ensures Dedup(Dedup(xs)) == Dedup(xs)
  {
    DedupOfDistinct(Dedup(xs));
  }

  /** The editor's state: the tags and the text being typed. */
  datatype TagState = TagState(tags: seq<string>, input: string)

  /** The editor opens on the default tags, deduplicated, and no text. */
  function Init(defaultTags: seq<string>): (r: TagState)
    ensures NoDuplicates(r.tags) && r.input == ""
    ensures forall t :: t in r.tags <==> t in defaultTags
    ensures forall i, j :: 0 <= i < j < |r.tags| ==>
      FirstIndex(defaultTags, r.tags[i]) < FirstIndex(defaultTags, r.tags[j])
  {
    DedupKeepsFirstOccurrenceOrder(defaultTags);
    TagState(Dedup(defaultTags), "")
  }

  /** Typing replaces the text. */
  function Typed(st: TagState, value: string): TagState {
    st.(input := value)
  }

  /** The keys that commit the typed text as a tag. */
  predicate CommitKey(key: string) {
    key == "Enter" || key == "," || key == " "
  }

  /** `handleKeyDown`: a commit key appends the trimmed text when it is
      non-empty and not yet a tag, and only then clears the box;
      Backspace in an empty box drops the last tag. */
  function KeyDown(st: TagState, key: string): (r: TagState)
    ensures CommitKey(key) && Trim(st.input) != "" && Trim(st.input) !in st.tags ==>
      r == TagState(st.tags + [Trim(st.input)], "")
    ensures CommitKey(key) && (Trim(st.input) == "" || Trim(st.input) in st.tags) ==> r == st
    ensures !CommitKey(key) && key == "Backspace" && st.input == "" && |st.tags| > 0 ==>
      r == TagState(st.tags[..|st.tags| - 1], st.input)
    ensures !CommitKey(key) && !(key == "Backspace" && st.input == "" && |st.tags| > 0) ==> r == st
  {
    if CommitKey(key) then
      var newTag := Trim(st.input);
      if newTag != "" && newTag !in st.tags then TagState(st.tags + [newTag], "") else st
    else if key == "Backspace" && st.input == "" && |st.tags| > 0 then
      TagState(st.tags[..|st.tags| - 1], st.input)
    else st
  }

  /** `removeTag(tag)`: that tag goes, the rest keep their order. */
  function RemoveTag(st: TagState, tag: string): (r: TagState)
    ensures tag !in r.tags
    ensures forall t :: t in r.tags <==> t in st.tags && t != tag
    ensures r.input == st.input
  {
    st.(tags := Filter(st.tags, (t: string) => t != tag))
  }

  /** The hidden input's value: splitting it at the commas gives the tags
      back whenever none of them holds a comma. */
  function Serialized(st: TagState): (r: string)
    ensures |st.tags| == 0 ==> r == ""
    ensures |st.tags| > 0 && (forall k :: 0 <= k < |st.tags| ==> ',' !in st.tags[k]) ==> Split(r, ',') == st.tags
  {
    CommaFreeJoinSplitsBack(st.tags);
    Join(st.tags, ',')
  }

  /** Joining comma-free tags with commas and splitting at the commas
      gives the tags back. */
  lemma CommaFreeJoinSplitsBack(tags: seq<string>)
    ensures |tags| > 0 && (forall k :: 0 <= k < |tags| ==> ',' !in tags[k]) ==> Split(Join(tags, ','), ',') == tags
  {
    if |tags| > 0 && forall k :: 0 <= k < |tags| ==> ',' !in tags[k] {
      SplitJoin(tags, ',');
    }
  }

  /** The tag list never holds a value twice, whatever the user does. */
  lemma KeyDownKeepsDistinct(st: TagState, key: string)
    requires NoDuplicates(st.tags)
    ensures NoDuplicates(KeyDown(st, key).tags)
  {
    var r := KeyDown(st, key);
    if CommitKey(key) && r != st {
      forall i, j | 0 <= i < j < |r.tags|
        ensures r.tags[i] != r.tags[j]
      {
        if j == |st.tags| {
          assert r.tags[i] == st.tags[i] && st.tags[i] in st.tags;
        }
      }
    }
  }

  lemma RemoveTagKeepsDistinct(st: TagState, tag: string)
    requires NoDuplicates(st.tags)
    ensures NoDuplicates(RemoveTag(st, tag).tags)
  {
    var p := (t: string) => t != tag;
    var ne := (a: string, b: string) => a != b;
    assert Pairwise(st.tags, ne);
    FilterKeepsPairwise(st.tags, p, ne);
  }

  /** Removing the tag at position `k` of a distinct list leaves the tags
      before it and the tags after it, in their order. */
  lemma RemoveTagKeepsOrder(st: TagState, k: nat)
    requires NoDuplicates(st.tags) && k < |st.tags|
    ensures RemoveTag(st, st.tags[k]).tags == st.tags[..k] + st.tags[k + 1..]
  {
    var xs, tag := st.tags, st.tags[k];
    var p := (t: string) => t != tag;
    var before, after := xs[..k], xs[k + 1..];
    assert xs == before + [tag] + after;
    forall i | 0 <= i < |before|
      ensures p(before[i])
    {
      assert before[i] == xs[i];
    }
    forall i | 0 <= i < |after|
      ensures p(after[i])
    {
      assert after[i] == xs[k + 1 + i];
    }
    FilterAll(before, p);
    FilterAll(after, p);
    assert Filter([tag], p) == [] by {
      assert [tag][1..] == [];
    }
    FilterConcat(before, [tag], p);
    FilterConcat(before + [tag], after, p);
    assert Filter(xs, p) == before + after;
  }

  /** Committing the same text again adds nothing: the box is cleared only
      when a tag was added. */
  lemma CommitTwiceIsCommitOnce(st: TagState, text: string, key: string)
    requires CommitKey(key)
    ensures var once := KeyDown(Typed(st, text), key);
            KeyDown(Typed(once, text), key).tags == once.tags
  {
  }

  /** Every tag the editor adds is trimmed and non-empty. */
  ghost predicate CleanTags(tags: seq<string>) {
    forall k :: 0 <= k < |tags| ==> tags[k] != "" && IsTrimmed(tags[k])
  }

  lemma KeyDownKeepsClean(st: TagState, key: string)
    requires CleanTags(st.tags)
    ensures CleanTags(KeyDown(st, key).tags)
  {
  }
}
