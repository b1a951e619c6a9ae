/**
 * The tag index: a map from each tag to the documents carrying it, filled one document at a
 * time, and the tag cloud drawn from it, where a tag's weight is the natural logarithm of
 * the number of its documents, rounded down.
 */
module DocumentTrees {
  import opened Documents

  // ----- The map update of `add` -----

  /** `tags.get(t, [])`. */
  function DocsOf(m: map<string, seq<Document>>, t: string): seq<Document> {
    if t in m then m[t] else []
  }

  /** Number of occurrences of `t` in `ts`. */
  function Occurrences(ts: seq<string>, t: string): nat {
    if ts == [] then 0
    else Occurrences(ts[..|ts| - 1], t) + (if ts[|ts| - 1] == t then 1 else 0)
  }

  /** `n` copies of `d`. */
  function Copies(d: Document, n: nat): seq<Document> {
    if n == 0 then [] else Copies(d, n - 1) + [d]
  }

  /**
   * The map after `setdefault(tag, []).append(d)` for each tag of `ts` in turn. Keys outside
   * `ts` keep their lists, and every key of `ts` ends up with a non-empty list.
   */
  function AddTags(m: map<string, seq<Document>>, ts: seq<string>, d: Document): (r: map<string, seq<Document>>)
    ensures forall t :: t in m && t !in ts ==> t in r && r[t] == m[t]
    ensures forall t :: t in r ==> t in m || t in ts
    ensures forall t :: t in ts ==> t in r && r[t] != []
  {
    if ts == [] then m
    else
      var before := AddTags(m, ts[..|ts| - 1], d);
      var t := ts[|ts| - 1];
      assert forall u :: u in ts <==> u in ts[..|ts| - 1] || u == t;
      before[t := DocsOf(before, t) + [d]]
  }

  /** One more tag appends one more copy of the document to that tag's list only. */
  lemma AddTagsStep(m: map<string, seq<Document>>, ts: seq<string>, d: Document, t: string)
    requires ts != []
    ensures DocsOf(AddTags(m, ts, d), t)
            == DocsOf(AddTags(m, ts[..|ts| - 1], d), t) + (if ts[|ts| - 1] == t then [d] else [])
  {
  }

  /**
   * `add`, stated without the loop: each list is the old one (or `[]`) followed by one copy
   * of the document per occurrence of its tag; in particular a document without tags
   * changes nothing.
   */
  lemma {:induction false} AddTagsSpec(m: map<string, seq<Document>>, ts: seq<string>, d: Document, t: string)
    ensures DocsOf(AddTags(m, ts, d), t) == DocsOf(m, t) + Copies(d, Occurrences(ts, t))
  {
    if ts != [] {
      AddTagsSpec(m, ts[..|ts| - 1], d, t);
      AddTagsStep(m, ts, d, t);
      CopiesStep(ts, t, d);
    }
  }

  /** One more tag adds one more copy exactly when it is the tag counted. */
  lemma CopiesStep(ts: seq<string>, t: string, d: Document)
    requires ts != []
    ensures Copies(d, Occurrences(ts, t))
            == Copies(d, Occurrences(ts[..|ts| - 1], t)) + (if ts[|ts| - 1] == t then [d] else [])
  {
  }

  // ----- The bucket rule: int(math.log(count)) -----

  /**
   * The least count whose natural logarithm reaches k, for k = 1 .. 22: the ceiling of e^k.
   * `int(math.log(count))` is the number of these a count reaches.
   */
  const LogThresholds: seq<nat> := [
    3, 8, 21, 55, 149, 404, 1097, 2981, 8104, 22027, 59875,
    162755, 442414, 1202605, 3269018, 8886111, 24154953, 65659970, 178482301,
    485165196, 1318815735, 3584912847]

  predicate Ascending(s: seq<nat>) {
    forall i, j :: 0 <= i < j < |s| ==> s[i] < s[j]
  }

  /** How many of the ascending thresholds `ts` are at most `n`. */
  function Reached(ts: seq<nat>, n: nat): (r: nat)
    requires Ascending(ts)
    ensures r <= |ts|
    ensures forall i :: 0 <= i < r ==> ts[i] <= n
    ensures forall i :: r <= i < |ts| ==> n < ts[i]
  {
    if ts == [] || n < ts[0] then 0 else 1 + Reached(ts[1..], n)
  }

  /** `int(math.log(count))` for a count of at least one. */
  function LogBucket(count: nat): (r: nat)
    ensures r <= |LogThresholds|
  {
    Reached(LogThresholds, count)
  }

  /** The bucket is at least `k` exactly when the count reaches the k-th threshold. */
  lemma LogBucketAtLeast(count: nat, k: nat)
    requires 1 <= k <= |LogThresholds|
    ensures LogBucket(count) >= k <==> count >= LogThresholds[k - 1]
  {
  }

  /** More documents never mean a lighter tag. */
  lemma LogBucketMonotone(a: nat, b: nat)
    requires a <= b
    ensures LogBucket(a) <= LogBucket(b)
  {
    if LogBucket(a) > 0 {
      assert LogThresholds[LogBucket(a) - 1] <= b;
    }
  }

  /** Tags of one or two documents get bucket 0, and bucket 0 is always left out of the cloud. */
  lemma RareTagsGetNoBucket(count: nat)
    requires count <= 2
    ensures LogBucket(count) == 0
  {
  }

  // ----- cloudify -----

  /** One `(tag, bucket, url)` triple of the cloud. */
  datatype CloudEntry = CloudEntry(tag: string, bucket: nat, url: string)

  /** A tag is drawn when it has enough documents, a bucket of at least one, and is not blacklisted. */
  predicate Qualifies(tag: string, count: nat, minCount: int, blackList: seq<string>) {
    count >= minCount && LogBucket(count) >= 1 && tag !in blackList
  }

  /** `e` is the triple the cloud holds for its tag in `m`. */
  predicate InCloud(m: map<string, seq<Document>>, e: CloudEntry, minCount: int, suffix: string,
                    baseURL: string, blackList: seq<string>) {
    && e.tag in m
    && Qualifies(e.tag, |m[e.tag]|, minCount, blackList)
    && e.bucket == LogBucket(|m[e.tag]|)
    && e.url == baseURL + e.tag + suffix
  }

  predicate DistinctTags(out: seq<CloudEntry>) {
    forall i, j :: 0 <= i < j < |out| ==> out[i].tag != out[j].tag
  }

  /** Tags of one or two documents are never in the cloud, whatever the minimum count. */
  lemma RareTagsNeverInCloud(m: map<string, seq<Document>>, e: CloudEntry, minCount: int,
                             suffix: string, baseURL: string, blackList: seq<string>)
    requires e.tag in m && |m[e.tag]| <= 2
    ensures !InCloud(m, e, minCount, suffix, baseURL, blackList)
  {
    RareTagsGetNoBucket(|m[e.tag]|);
  }

  /** A collection of documents indexed by tag. */
  class DocumentTree {
    var tags: map<string, seq<Document>>

    /** Every tag in the index has at least one document. */
    ghost predicate Valid()
      reads this
    {
      forall t :: t in tags ==> tags[t] != []
    }

    constructor ()
      ensures tags == map[]
      ensures Valid()
    {
      tags := map[];
    }

    /** `add(document)`: append the document to the list of each of its tags, once per occurrence. */
    method Add(document: Document)
      modifies this
      ensures tags == AddTags(old(tags), document.tags, document)
      ensures old(Valid()) ==> Valid()
    {
      var ts := document.tags;
      for i := 0 to |ts|
        invariant tags == AddTags(old(tags), ts[..i], document)
      {
        var tag := ts[i];
        tags := tags[tag := DocsOf(tags, tag) + [document]];
        assert ts[..i + 1][..i] == ts[..i];
      }
      assert ts[..|ts|] == ts;
    }

    /**
     * `cloudify(...)`: one triple for each tag that qualifies, with its bucket and
     * `baseURL + tag + suffix`, and nothing else. The order of the triples is the map's
     * iteration order, which is left open. `numBuckets` belongs to the inactive linear rule.
     */
    method Cloudify(minCount: int := 2, numBuckets: int := 6, suffix: string := ".html",
                    baseURL: string := "/blog/tags/", blackList: seq<string> := [])
      returns (out: seq<CloudEntry>)
      requires Valid()
      ensures forall e :: e in out <==> InCloud(tags, e, minCount, suffix, baseURL, blackList)
      ensures forall t :: t in tags && Qualifies(t, |tags[t]|, minCount, blackList) ==>
                CloudEntry(t, LogBucket(|tags[t]|), baseURL + t + suffix) in out
      ensures DistinctTags(out)
    {
      out := [];
      var remaining := tags.Keys;
      while remaining != {}
        invariant remaining <= tags.Keys
        invariant forall e :: e in out <==>
                    e.tag !in remaining && InCloud(tags, e, minCount, suffix, baseURL, blackList)
        invariant DistinctTags(out)
        decreases |remaining|
      {
        var tag :| tag in remaining;
        remaining := remaining - {tag};
        var count := |tags[tag]|;
        var bucket := LogBucket(count);
        if count < minCount || bucket < 1 || tag in blackList {
          continue;
        }
        out := out + [CloudEntry(tag, bucket, baseURL + tag + suffix)];
      }
    }
  }

  // ----- The linear rule of the comments, not used by `cloudify` -----

  /**
   * `int(count / (maxCount / float(numBuckets)))`, in integers: the bucket a tag would get
   * if the buckets split the range up to the largest count evenly.
   */
  function LinearBucket(count: nat, maxCount: nat, numBuckets: nat): (r: nat)
    requires 0 < maxCount && count <= maxCount
    ensures r * maxCount <= count * numBuckets < (r + 1) * maxCount
    ensures r <= numBuckets
  {
    var q := count * numBuckets / maxCount;
    LinearBucketBound(count, maxCount, numBuckets);
    q
  }

  lemma LinearBucketBound(count: nat, maxCount: nat, numBuckets: nat)
    requires 0 < maxCount && count <= maxCount
    ensures var q := count * numBuckets / maxCount;
            q * maxCount <= count * numBuckets < (q + 1) * maxCount && q <= numBuckets
  {
    var p := count * numBuckets;
    var q, rem := p / maxCount, p % maxCount;
    assert p == q * maxCount + rem;
    assert (q + 1) * maxCount == q * maxCount + maxCount;
    assert p <= maxCount * numBuckets by {
      assert (maxCount - count) * numBuckets >= 0;
    }
    assert (numBuckets - q) * maxCount == numBuckets * maxCount - q * maxCount;
  }

  /**
   * For six tags held by six, five, ..., one documents the linear rule gives the weights
   * 6 .. 1 with six buckets and 3, 2, 2, 1, 1, 0 with three, while the active logarithmic
   * rule puts the four most used tags in bucket 1 and the other two in bucket 0.
   */
  lemma LinearAndLogBucketsOfSixTags()
    ensures [LinearBucket(6, 6, 6), LinearBucket(5, 6, 6), LinearBucket(4, 6, 6),
             LinearBucket(3, 6, 6), LinearBucket(2, 6, 6), LinearBucket(1, 6, 6)] == [6, 5, 4, 3, 2, 1]
    ensures [LinearBucket(6, 6, 3), LinearBucket(5, 6, 3), LinearBucket(4, 6, 3),
             LinearBucket(3, 6, 3), LinearBucket(2, 6, 3), LinearBucket(1, 6, 3)] == [3, 2, 2, 1, 1, 0]
    ensures [LogBucket(6), LogBucket(5), LogBucket(4), LogBucket(3), LogBucket(2), LogBucket(1)]
            == [1, 1, 1, 1, 0, 0]
  {
  }
}
