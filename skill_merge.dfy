/** The skill merge of the resume upload: the stored skills followed by the extracted ones,
    with duplicates dropped as a JavaScript `Set` drops them. A set built from a list keeps
    the first occurrence of each value, in insertion order, and compares strings exactly,
    so "React" and "react" are two different skills. */
module SkillMerge {
  import opened Common

  /** `[...new Set(s)]`: each element is inserted in order, and an element already present
      is skipped. */
  function Dedupe(s: seq<string>): (r: seq<string>)
    ensures |r| <= |s|
  {
    if s == [] then []
    else
      var d := Dedupe(s[..|s| - 1]);
      var x := s[|s| - 1];
      if x in d then d else d + [x]
  }

  /** The merged skill list stored on upload. */
  function Merge(existing: seq<string>, extracted: seq<string>): (r: seq<string>)
    ensures forall x :: x in r <==> x in existing || x in extracted
    ensures NoDup(r)
  {
    var r := Dedupe(existing + extracted);
    forall x ensures x in r <==> x in existing || x in extracted {
      DedupeMembers(existing + extracted, x);
    }
    DedupeNoDup(existing + extracted);
    r
  }

  /** Deduplication keeps exactly the values of the list. */
  lemma {:induction false} DedupeMembers(s: seq<string>, x: string)
    ensures x in Dedupe(s) <==> x in s
  {
    if s != [] {
      var init := s[..|s| - 1];
      DedupeMembers(init, x);
      assert s == init + [s[|s| - 1]];
    }
  }

  /** Deduplication leaves no duplicate. */
  lemma {:induction false} DedupeNoDup(s: seq<string>)
    ensures NoDup(Dedupe(s))
  {
    if s != [] {
      var init := s[..|s| - 1];
      var d := Dedupe(init);
      var x := s[|s| - 1];
      DedupeNoDup(init);
      if x !in d {
        var r := d + [x];
        forall i, j | 0 <= i < j < |r| ensures r[i] != r[j] {
          assert r[i] == d[i];
          if j < |d| {
            assert r[j] == d[j];
          }
        }
      }
    }
  }

  /** Inserting one more element: it is skipped exactly when it was seen before. */
  lemma DedupeSnoc(s: seq<string>, x: string)
    ensures Dedupe(s + [x]) == if x in s then Dedupe(s) else Dedupe(s) + [x]
  {
    assert (s + [x])[..|s + [x]| - 1] == s;
    DedupeMembers(s, x);
  }

  /** The elements of `b` that `a` does not contain, in order. */
  function Unseen(a: seq<string>, b: seq<string>): (r: seq<string>)
    ensures |r| <= |b|
  {
    if b == [] then []
    else Unseen(a, b[..|b| - 1]) + (if b[|b| - 1] in a then [] else [b[|b| - 1]])
  }

  lemma {:induction false} UnseenMembers(a: seq<string>, b: seq<string>, x: string)
    ensures x in Unseen(a, b) <==> x in b && x !in a
  {
    if b != [] {
      UnseenMembers(a, b[..|b| - 1], x);
      assert b == b[..|b| - 1] + [b[|b| - 1]];
    }
  }

  /** Nothing is left when every element of `b` is in `a`. */
  lemma {:induction false} UnseenEmpty(a: seq<string>, b: seq<string>)
    requires forall x :: x in b ==> x in a
    ensures Unseen(a, b) == []
  {
    if b != [] {
      assert b[|b| - 1] in b;
      UnseenEmpty(a, b[..|b| - 1]);
    }
  }

  /** Deduplicating a concatenation is deduplicating the front, followed by the deduplicated
      elements of the back that the front does not contain. */
  lemma {:induction false} DedupeAppend(a: seq<string>, b: seq<string>)
    ensures Dedupe(a + b) == Dedupe(a) + Dedupe(Unseen(a, b))
    decreases |b|
  {
    if b == [] {
      assert a + b == a;
    } else {
      var b', y := b[..|b| - 1], b[|b| - 1];
      assert b == b' + [y];
      DedupeAppend(a, b');
      DedupeAppendStep(a, b', y);
    }
  }

  /** One step of DedupeAppend: adding `y` at the back of `b`. */
  lemma DedupeAppendStep(a: seq<string>, b: seq<string>, y: string)
    requires Dedupe(a + b) == Dedupe(a) + Dedupe(Unseen(a, b))
    ensures Dedupe(a + (b + [y])) == Dedupe(a) + Dedupe(Unseen(a, b + [y]))
  {
    var f := Unseen(a, b);
    Assoc(a, b, [y]);
    UnseenSnoc(a, b, y);
    InConcat(a, b, y);
    UnseenMembers(a, b, y);
    if y in a + b {
      DedupeSeen(a + b, y);
      if y !in a {
        DedupeSeen(f, y);
      }
    } else {
      DedupeUnseen(a + b, y);
      DedupeUnseen(f, y);
      Assoc(Dedupe(a), Dedupe(f), [y]);
    }
  }

  lemma Assoc(x: seq<string>, y: seq<string>, z: seq<string>)
    ensures (x + y) + z == x + (y + z)
  {
  }

  /** Inserting an element already seen changes nothing. */
  lemma DedupeSeen(s: seq<string>, x: string)
    requires x in s
    ensures Dedupe(s + [x]) == Dedupe(s)
  {
    DedupeSnoc(s, x);
  }

  /** Inserting an element not seen before appends it. */
  lemma DedupeUnseen(s: seq<string>, x: string)
    requires x !in s
    ensures Dedupe(s + [x]) == Dedupe(s) + [x]
  {
    DedupeSnoc(s, x);
  }

  lemma UnseenSnoc(a: seq<string>, b: seq<string>, y: string)
    ensures Unseen(a, b + [y]) == if y in a then Unseen(a, b) else Unseen(a, b) + [y]
  {
    assert (b + [y])[..|b + [y]| - 1] == b;
    assert Unseen(a, b) + [] == Unseen(a, b);
  }

  lemma InConcat(a: seq<string>, b: seq<string>, y: string)
    ensures y in a + b <==> y in a || y in b
  {
  }

  /** A duplicate-free list is its own deduplication. */
  lemma {:induction false} DedupeNoDupIdentity(s: seq<string>)
    requires NoDup(s)
    ensures Dedupe(s) == s
  {
    if s != [] {
      var init, x := s[..|s| - 1], s[|s| - 1];
      assert NoDup(init) by {
        forall i, j | 0 <= i < j < |init| ensures init[i] != init[j] {
          assert init[i] == s[i] && init[j] == s[j];
        }
      }
      DedupeNoDupIdentity(init);
      forall k | 0 <= k < |init| ensures init[k] != x {
        assert init[k] == s[k];
      }
      assert s == init + [x];
      DedupeSnoc(init, x);
    }
  }

  /** Deduplication is idempotent. */
  lemma DedupeIdempotent(s: seq<string>)
    ensures Dedupe(Dedupe(s)) == Dedupe(s)
  {
    DedupeNoDup(s);
    DedupeNoDupIdentity(Dedupe(s));
  }

  /** The merge keeps every stored and every extracted skill, adds nothing else and holds
      no duplicate. */
  lemma MergeMembers(existing: seq<string>, extracted: seq<string>)
    ensures forall x :: x in Merge(existing, extracted) <==> x in existing || x in extracted
    ensures NoDup(Merge(existing, extracted))
  {
    forall x ensures x in Merge(existing, extracted) <==> x in existing || x in extracted {
      DedupeMembers(existing + extracted, x);
    }
    DedupeNoDup(existing + extracted);
  }

  /** When the stored skills are duplicate-free they are an unchanged prefix of the merge,
      and what follows is the new skills, in order of first occurrence. */
  lemma MergeExtends(existing: seq<string>, extracted: seq<string>)
    requires NoDup(existing)
    ensures Merge(existing, extracted) == existing + Dedupe(Unseen(existing, extracted))
    ensures Merge(existing, extracted)[..|existing|] == existing
  {
    DedupeAppend(existing, extracted);
    DedupeNoDupIdentity(existing);
  }

  /** In general the deduplicated stored skills are a prefix of the merge. */
  lemma MergeKeepsExisting(existing: seq<string>, extracted: seq<string>)
    ensures |Dedupe(existing)| <= |Merge(existing, extracted)|
    ensures Merge(existing, extracted)[..|Dedupe(existing)|] == Dedupe(existing)
  {
    DedupeAppend(existing, extracted);
  }

  /** Merging skills that are all already stored leaves a duplicate-free list unchanged. */
  lemma MergeIdempotent(existing: seq<string>, extracted: seq<string>)
    requires NoDup(existing)
    requires forall x :: x in extracted ==> x in existing
    ensures Merge(existing, extracted) == existing
  {
    MergeExtends(existing, extracted);
    UnseenEmpty(existing, extracted);
  }

  /** Uploading the same resume twice stores the same skills as uploading it once. */
  lemma MergeTwice(existing: seq<string>, extracted: seq<string>)
    ensures Merge(Merge(existing, extracted), extracted) == Merge(existing, extracted)
  {
    MergeMembers(existing, extracted);
    MergeIdempotent(Merge(existing, extracted), extracted);
  }

  /** Comparison is exact: skills differing only in case are both kept. */
  lemma MergeIsCaseSensitive()
    ensures Merge(["React"], ["react"]) == ["React", "react"]
  {
    DedupeSnoc([], "React");
    assert [] + ["React"] == ["React"];
    assert "react" != "React" by {
      assert "react"[0] != "React"[0];
    }
    DedupeSnoc(["React"], "react");
  }
}
