/** The shard router: a key goes to the shard named by its first character,
    lower-cased, when that symbol belongs to the alphabet, and to the
    fallback shard `#` otherwise. */
module Routing {
  import opened Wrappers
  import opened Enumeration

  /** The 37 shard identifiers, in the order the constructor opens them. */
  const Alphabet: string := "abcdefghijklmnopqrstuvwxyz1234567890#"

  /** The shard that receives every key whose first symbol is not a shard id. */
  const Fallback: char := '#'

  /** The set of shard identifiers. */
  const ShardIds: set<char> := set c | c in Alphabet

  /** Membership in the alphabet, spelled out as character ranges
      (`AlphabetMembers` shows the two agree). */
  predicate IsShardId(c: char) {
    'a' <= c <= 'z' || '0' <= c <= '9' || c == '#'
  }

  /** `str.lower()` on one character, restricted to ASCII. */
  function Lower(c: char): (l: char)
    ensures 'A' <= c <= 'Z' ==> 'a' <= l <= 'z' && l as int - c as int == 'a' as int - 'A' as int
    ensures !('A' <= c <= 'Z') ==> l == c
  {
    if 'A' <= c <= 'Z' then (c as int - 'A' as int + 'a' as int) as char else c
  }

  /** The shard of a non-empty key. */
  function ShardOf(key: string): (s: char)
    requires |key| > 0
    ensures s in ShardIds
  {
    var first := Lower(key[0]);
    AlphabetMembers(first);
    AlphabetMembers(Fallback);
    if IsShardId(first) then first else Fallback
  }

  /** Routing of an arbitrary key: an empty key has no first character and
      is rejected the way indexing it is. */
  function Route(key: string): (r: Result<char>)
    ensures r.Err? <==> |key| == 0
    ensures r.Err? ==> r.error == IndexError
    ensures r.Ok? ==> r.value in ShardIds && r.value == ShardOf(key)
  {
    if |key| == 0 then Err(IndexError) else Ok(ShardOf(key))
  }

  /** `ShardIds` and `IsShardId` describe the same set. */
  lemma ShardIdsAreRanges()
    ensures forall c :: c in ShardIds <==> IsShardId(c)
  {
    forall c {
      AlphabetMembers(c);
    }
  }

  /** The symbol at each position of the alphabet. */
  function Symbol(i: int): (c: char)
    requires 0 <= i < 37
  {
    if i < 26 then ('a' as int + i) as char
    else if i < 35 then ('1' as int + (i - 26)) as char
    else if i == 35 then '0'
    else '#'
  }

  lemma AlphabetAt(i: int)
    requires 0 <= i < 37
    ensures Alphabet[i] == Symbol(i)
  {
  }

  /** The alphabet holds exactly the lower-case ASCII letters, the ten
      digits and `#`. */
  lemma AlphabetMembers(c: char)
    ensures c in ShardIds <==> IsShardId(c)
  {
    if IsShardId(c) {
      if 'a' <= c <= 'z' {
        AlphabetAt(c as int - 'a' as int);
      } else if '1' <= c <= '9' {
        AlphabetAt(c as int - '1' as int + 26);
      } else if c == '0' {
        AlphabetAt(35);
      } else {
        AlphabetAt(36);
      }
    }
    if c in Alphabet {
      var i :| 0 <= i < |Alphabet| && Alphabet[i] == c;
      AlphabetAt(i);
    }
  }

  /** The alphabet lists 37 distinct symbols, so a store has 37 shards. */
  lemma ShardCount()
    ensures Distinct(Alphabet)
    ensures |ShardIds| == 37
  {
    forall i, j | 0 <= i < j < |Alphabet| ensures Alphabet[i] != Alphabet[j] {
      AlphabetAt(i);
      AlphabetAt(j);
    }
    DistinctCardinality(Alphabet);
  }

  /** Case analysis of routing on the first character: upper-case letters
      go to their lower-case shard, shard symbols go to themselves,
      everything else goes to `#`. */
  lemma RouteByFirstCharacter(key: string)
    requires |key| > 0
    ensures 'A' <= key[0] <= 'Z' ==> Route(key) == Ok((key[0] as int + 32) as char)
    ensures key[0] in ShardIds ==> Route(key) == Ok(key[0])
    ensures !('A' <= key[0] <= 'Z') && key[0] !in ShardIds ==> Route(key) == Ok('#')
  {
    AlphabetMembers(key[0]);
  }

  /** Routing looks only at the first character: keys that agree on it up
      to ASCII case share a shard. */
  lemma RouteIgnoresRestAndCase(k1: string, k2: string)
    requires |k1| > 0 && |k2| > 0
    requires Lower(k1[0]) == Lower(k2[0])
    ensures Route(k1) == Route(k2)
  {
  }
}
