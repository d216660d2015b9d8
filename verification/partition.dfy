/**
 * Bucketing of the flat question list into sections. A question belongs to a
 * section when its `sectionId` names that section, and a question without a
 * (truthy) `sectionId` belongs to the first section. The document composer and
 * the question editor's per-section lists use this same predicate.
 */
module Partition {
  import opened Js
  import opened ExamModel

  /** The filter predicate of `getSectionQuestions` for the section `sectionId`, the first section being `firstId`. */
  predicate InBucket(q: Question, sectionId: string, firstId: string) {
    q.sectionId == Val(sectionId) || (!TruthyKey(q.sectionId) && sectionId == firstId)
  }

  /** `questions.filter(q => InBucket(q, ...))`. */
  function Bucket(qs: seq<Question>, sectionId: string, firstId: string): (r: seq<Question>)
    ensures |r| <= |qs|
    ensures forall q :: q in r <==> q in qs && InBucket(q, sectionId, firstId)
  {
    if qs == [] then []
    else (if InBucket(qs[0], sectionId, firstId) then [qs[0]] else []) + Bucket(qs[1..], sectionId, firstId)
  }

  /** Filtering distributes over concatenation, so a bucket keeps the list order. */
  lemma {:induction false} BucketAppend(a: seq<Question>, b: seq<Question>, sectionId: string, firstId: string)
    ensures Bucket(a + b, sectionId, firstId) == Bucket(a, sectionId, firstId) + Bucket(b, sectionId, firstId)
  {
    if a == [] {
      assert a + b == b;
    } else {
      assert (a + b)[0] == a[0];
      assert (a + b)[1..] == a[1..] + b;
      BucketAppend(a[1..], b, sectionId, firstId);
    }
  }

  /** The number of sections among `sections` whose bucket holds `q`. */
  function Hits(q: Question, sections: seq<Section>, firstId: string): nat {
    if sections == [] then 0
    else (if InBucket(q, sections[0].id, firstId) then 1 else 0) + Hits(q, sections[1..], firstId)
  }

  /** A question whose section id names no section lies in no bucket. */
  lemma {:induction false} DanglingInNoBucket(q: Question, sections: seq<Section>, firstId: string)
    requires TruthyKey(q.sectionId)
    requires !HasSection(sections, q.sectionId.v)
    ensures Hits(q, sections, firstId) == 0
  {
    if sections != [] {
      assert !HasSection(sections[1..], q.sectionId.v) by {
        forall i | 0 <= i < |sections[1..]|
          ensures sections[1..][i].id != q.sectionId.v
        {
          assert sections[1..][i] == sections[i + 1];
        }
      }
      DanglingInNoBucket(q, sections[1..], firstId);
    }
  }

  /**
   * With non-empty, distinct section ids, a question whose section id is
   * missing, empty or names a section lies in exactly one bucket.
   */
  lemma {:induction false} ExactlyOneBucket(q: Question, sections: seq<Section>)
    requires |sections| > 0 && UniqueSectionIds(sections)
    requires !TruthyKey(q.sectionId) || HasSection(sections, q.sectionId.v)
    ensures Hits(q, sections, sections[0].id) == 1
  {
    var first := sections[0].id;
    var rest := sections[1..];
    forall i | 0 <= i < |rest|
      ensures rest[i].id != first && rest[i].id != ""
    {
      assert rest[i] == sections[i + 1];
    }
    if InBucket(q, first, first) {
      NoOtherHit(q, rest, first);
    } else {
      var k :| 0 <= k < |sections| && sections[k].id == q.sectionId.v;
      assert k > 0;
      assert rest[k - 1].id == q.sectionId.v;
      forall i | 0 <= i < |rest| && i != k - 1
        ensures rest[i].id != q.sectionId.v
      {
        assert rest[i] == sections[i + 1];
      }
      OneHitAt(q, rest, first, k - 1);
    }
  }

  /** When `q` is in the first section's bucket, no later section (with other non-empty ids) holds it. */
  lemma {:induction false} NoOtherHit(q: Question, rest: seq<Section>, first: string)
    requires InBucket(q, first, first)
    requires forall i :: 0 <= i < |rest| ==> rest[i].id != first && rest[i].id != ""
    ensures Hits(q, rest, first) == 0
  {
    if rest != [] {
      NoOtherHit(q, rest[1..], first);
    }
  }

  /** A truthy section id carried by exactly one of `rest` (none of them the first) gives one hit. */
  lemma {:induction false} OneHitAt(q: Question, rest: seq<Section>, first: string, k: nat)
    requires TruthyKey(q.sectionId)
    requires k < |rest| && rest[k].id == q.sectionId.v
    requires forall i :: 0 <= i < |rest| && i != k ==> rest[i].id != q.sectionId.v
    ensures Hits(q, rest, first) == 1
  {
    if k == 0 {
      NoMatchAfter(q, rest[1..], first);
    } else {
      OneHitAt(q, rest[1..], first, k - 1);
    }
  }

  lemma {:induction false} NoMatchAfter(q: Question, rest: seq<Section>, first: string)
    requires TruthyKey(q.sectionId)
    requires forall i :: 0 <= i < |rest| ==> rest[i].id != q.sectionId.v
    ensures Hits(q, rest, first) == 0
  {
    if rest != [] {
      NoMatchAfter(q, rest[1..], first);
    }
  }

  /** The sum of the bucket sizes over `sections`. */
  function BucketSizes(sections: seq<Section>, qs: seq<Question>, firstId: string): nat {
    if sections == [] then 0
    else |Bucket(qs, sections[0].id, firstId)| + BucketSizes(sections[1..], qs, firstId)
  }

  /** The number of (question, bucket) memberships, counted question by question. */
  function TotalHits(qs: seq<Question>, sections: seq<Section>, firstId: string): nat {
    if qs == [] then 0 else Hits(qs[0], sections, firstId) + TotalHits(qs[1..], sections, firstId)
  }

  lemma {:induction false} BucketSizesCons(q: Question, qs: seq<Question>, sections: seq<Section>, firstId: string)
    ensures BucketSizes(sections, [q] + qs, firstId) == Hits(q, sections, firstId) + BucketSizes(sections, qs, firstId)
  {
    if sections != [] {
      assert ([q] + qs)[1..] == qs;
      BucketSizesCons(q, qs, sections[1..], firstId);
    }
  }

  /** Counting memberships section by section or question by question gives the same total. */
  lemma {:induction false} BucketSizesByQuestion(qs: seq<Question>, sections: seq<Section>, firstId: string)
    ensures BucketSizes(sections, qs, firstId) == TotalHits(qs, sections, firstId)
  {
    if qs == [] {
      EmptyBuckets(sections, firstId);
    } else {
      assert qs == [qs[0]] + qs[1..];
      BucketSizesCons(qs[0], qs[1..], sections, firstId);
      BucketSizesByQuestion(qs[1..], sections, firstId);
    }
  }

  lemma {:induction false} EmptyBuckets(sections: seq<Section>, firstId: string)
    ensures BucketSizes(sections, [], firstId) == 0
  {
    if sections != [] {
      EmptyBuckets(sections[1..], firstId);
    }
  }

  /**
   * With non-empty, distinct section ids and no dangling section reference,
   * the buckets together hold exactly as many entries as there are questions.
   */
  lemma {:induction false} BucketsCoverQuestions(qs: seq<Question>, sections: seq<Section>)
    requires |sections| > 0 && UniqueSectionIds(sections)
    requires forall i :: 0 <= i < |qs| ==> !TruthyKey(qs[i].sectionId) || HasSection(sections, qs[i].sectionId.v)
    ensures BucketSizes(sections, qs, sections[0].id) == |qs|
  {
    BucketSizesByQuestion(qs, sections, sections[0].id);
    AllHitOnce(qs, sections);
  }

  lemma {:induction false} AllHitOnce(qs: seq<Question>, sections: seq<Section>)
    requires |sections| > 0 && UniqueSectionIds(sections)
    requires forall i :: 0 <= i < |qs| ==> !TruthyKey(qs[i].sectionId) || HasSection(sections, qs[i].sectionId.v)
    ensures TotalHits(qs, sections, sections[0].id) == |qs|
  {
    if qs != [] {
      ExactlyOneBucket(qs[0], sections);
      assert forall i :: 0 <= i < |qs[1..]| ==> qs[1..][i] == qs[i + 1];
      AllHitOnce(qs[1..], sections);
    }
  }
}
