/**
 * Page arithmetic shared by the source's listing endpoint and the pipeline's
 * read API: page `p` of size `limit` is the slice starting at `(p - 1) * limit`,
 * and the page count is the ceiling of `total / limit`.
 */
module Pagination {

  /** A query-string argument as the web framework sees it. */
  datatype QueryArg = Absent | Given(n: int) | NotAnInteger

  function Min(a: int, b: int): int { if a <= b then a else b }
  function Max(a: int, b: int): int { if a >= b then a else b }

  lemma MulSucc(k: nat, limit: nat)
    ensures (k + 1) * limit == k * limit + limit
  {
  }

  lemma MulMono(a: nat, b: nat, limit: nat)
    requires a <= b
    ensures a * limit <= b * limit
  {
  }

  /** `(total + limit - 1) // limit`: the least page count that covers `total` items. */
  function CeilDiv(total: nat, limit: nat): (r: nat)
    requires limit >= 1
    ensures r * limit >= total
    ensures r > 0 ==> (r - 1) * limit < total
    ensures total == 0 <==> r == 0
  {
    var q := (total + limit - 1) / limit;
    var rem := (total + limit - 1) % limit;
    assert q * limit + rem == total + limit - 1;
    if q > 0 then MulSucc(q - 1, limit); q else q
  }

  /** The Python slice `s[start : start + limit]` of a non-negative start. */
  function SliceFrom<T>(s: seq<T>, start: nat, limit: nat): (r: seq<T>)
    ensures |r| == Min(limit, Max(0, |s| - start))
    ensures forall i | 0 <= i < |r| :: r[i] == s[start + i]
  {
    if start >= |s| then [] else s[start..Min(start + limit, |s|)]
  }

  /** The Python slice `s[(page - 1) * limit : (page - 1) * limit + limit]`. */
  function PageOf<T>(s: seq<T>, page: int, limit: int): (r: seq<T>)
    requires page >= 1 && limit >= 1
    ensures (page - 1) * limit >= 0
    ensures |r| == Min(limit, Max(0, |s| - (page - 1) * limit))
    ensures forall i | 0 <= i < |r| :: r[i] == s[(page - 1) * limit + i]
  {
    MulMono(0, page - 1, limit);
    SliceFrom(s, (page - 1) * limit, limit)
  }

  /** Pages 1 to `k`, concatenated in order. */
  function PagesUpTo<T>(s: seq<T>, limit: int, k: nat): seq<T>
    requires limit >= 1
  {
    if k == 0 then [] else PagesUpTo(s, limit, k - 1) + PageOf(s, k, limit)
  }

  /** Pages 1 to `k` together are the first `k * limit` items, in order. */
  lemma {:induction false} PagesUpToIsPrefix<T>(s: seq<T>, limit: int, k: nat)
    requires limit >= 1
    ensures PagesUpTo(s, limit, k) == s[..Min(k * limit, |s|)]
  {
    if k > 0 {
      PagesUpToIsPrefix(s, limit, k - 1);
      MulSucc(k - 1, limit);
      var before := (k - 1) * limit;
      if before >= |s| {
        MulMono(k - 1, k, limit);
        assert PageOf(s, k, limit) == [];
      } else {
        assert s[..Min(k * limit, |s|)] == s[..before] + s[before..Min(k * limit, |s|)];
      }
    }
  }

  /** Every page after the last one is empty. */
  lemma PagesPastEndEmpty<T>(s: seq<T>, limit: int, page: int)
    requires limit >= 1 && page > CeilDiv(|s|, limit)
    ensures PageOf(s, page, limit) == []
  {
    MulMono(CeilDiv(|s|, limit), page - 1, limit);
  }

  /** Pages 1 to `ceil(|s| / limit)` partition `s`: each item once, in order. */
  lemma PagesPartition<T>(s: seq<T>, limit: int)
    requires limit >= 1
    ensures PagesUpTo(s, limit, CeilDiv(|s|, limit)) == s
  {
    PagesUpToIsPrefix(s, limit, CeilDiv(|s|, limit));
  }
}
