/**
 * The scraper's row dictionaries.  A Python `dict` maps keys to values and
 * also remembers the order in which its keys were first inserted; that order
 * becomes the CSV header, so a record carries both.
 */
module Records {
  import opened Wrappers

  datatype Record = Record(keys: seq<string>, values: map<string, string>)

  const EMPTY := Record([], map[])

  /** The keys are distinct and are exactly the keys that have a value. */
  predicate Valid(r: Record)
  {
    && (forall i, j | 0 <= i < j < |r.keys| :: r.keys[i] != r.keys[j])
    && (forall k | k in r.values :: k in r.keys)
    && (forall k | k in r.keys :: k in r.values)
  }

  /** `list(d.keys())`. */
  function Keys(r: Record): seq<string>
  {
    r.keys
  }

  /** `d.get(k)`. */
  function Get(r: Record, k: string): Option<string>
  {
    if k in r.values then Some(r.values[k]) else None
  }

  /** `d.get(k, default)`. */
  function GetOr(r: Record, k: string, default: string): string
  {
    match Get(r, k)
    case Some(v) => v
    case None => default
  }

  /**
   * `d[k] = v`: an existing key keeps its position and takes the new value;
   * a new key goes at the end; the value under every other key stays.
   */
  function Put(r: Record, k: string, v: string): (r': Record)
    ensures Keys(r') == if k in Keys(r) then Keys(r) else Keys(r) + [k]
    ensures Get(r', k) == Some(v)
  {
    if k in r.keys then Record(r.keys, r.values[k := v])
    else Record(r.keys + [k], r.values[k := v])
  }

  /** Assignment leaves the value under every other key as it was. */
  lemma PutKeepsOthers(r: Record, k: string, v: string)
    ensures forall k' | k' != k :: Get(Put(r, k, v), k') == Get(r, k')
  {
  }

  /** Assignment leaves the value under one other key `k'` as it was. */
  lemma PutOther(r: Record, k: string, v: string, k': string)
    requires k' != k
    ensures Get(Put(r, k, v), k') == Get(r, k')
  {
  }

  /** Assignment adds at most the assigned key. */
  lemma PutKeysGrow(r: Record, k: string, v: string)
    ensures |Keys(Put(r, k, v))| <= |Keys(r)| + 1
    ensures forall k' | k' in Keys(Put(r, k, v)) :: k' == k || k' in Keys(r)
  {
  }

  /** Assignment keeps a dict well-formed. */
  lemma PutValid(r: Record, k: string, v: string)
    ensures Valid(r) ==> Valid(Put(r, k, v))
  {
  }
}
