/**
  Random short-id generation: `ID_CHARS` and the `random.sample(ID_CHARS, 5)`
  draw used by `Redirect.reserve` when no id is supplied.

  The random source is an input: a `Sample` is the list of five distinct
  positions into the alphabet that one call of `random.sample` picks.
 */
module KeyGen {
  import opened Optional

  /** The alphabet ids are drawn from: upper-case letters without `I`,
      digits without `0` and `1` (33 characters). */
  const IdChars: string := "ABCDEFGHJKLMNOPQRSTUVWXYZ23456789"

  /** Number of characters in a generated id. */
  const IdLength: nat := 5

  /** Five distinct positions into `IdChars`: what sampling without
      replacement can return. */
  predicate IsSample(p: seq<nat>) {
    && |p| == IdLength
    && (forall i :: 0 <= i < |p| ==> p[i] < |IdChars|)
    && (forall i, j :: 0 <= i < j < |p| ==> p[i] != p[j])
  }

  type Sample = p: seq<nat> | IsSample(p) witness [0, 1, 2, 3, 4]

  /** Position of `c` in `IdChars`, computed from the three character runs
      the alphabet consists of; -1 for a character outside it. */
  function AlphabetPos(c: char): int {
    if 'A' <= c <= 'H' then c as int - 'A' as int
    else if 'J' <= c <= 'Z' then c as int - 'J' as int + 8
    else if '2' <= c <= '9' then c as int - '2' as int + 25
    else -1
  }

  /** `AlphabetPos` inverts indexing into the alphabet, so the alphabet has
      33 characters and none of them occurs twice. */
  lemma AlphabetPosInverts()
    ensures |IdChars| == 33
    ensures forall i :: 0 <= i < |IdChars| ==> AlphabetPos(IdChars[i]) == i
  {
  }

  /** A string is a possible generated id: five characters of the alphabet,
      no character repeated. */
  predicate IsGeneratedShape(id: string) {
    && |id| == IdLength
    && (forall i :: 0 <= i < |id| ==> id[i] in IdChars)
    && (forall i, j :: 0 <= i < j < |id| ==> id[i] != id[j])
  }

  /** The id `''.join(random.sample(ID_CHARS, 5))` builds from the drawn
      positions. */
  function GenerateId(p: Sample): (id: string)
    ensures IsGeneratedShape(id)
  {
    AlphabetPosInverts();
    seq(IdLength, i requires 0 <= i < IdLength => IdChars[p[i]])
  }

  /** Recovers the positions a string of alphabet characters was built from. */
  function Positions(id: string): (r: Option<seq<nat>>)
    ensures r.Some? ==> |r.value| == |id|
    ensures r.Some? <==> forall i :: 0 <= i < |id| ==> AlphabetPos(id[i]) >= 0
  {
    if forall i :: 0 <= i < |id| ==> AlphabetPos(id[i]) >= 0 then
      Some(seq(|id|, i requires 0 <= i < |id| => AlphabetPos(id[i])))
    else
      None
  }

  /** Generating an id loses nothing: the draw can be read back from it. */
  lemma PositionsOfGenerated(p: Sample)
    ensures Positions(GenerateId(p)) == Some(p)
  {
    AlphabetPosInverts();
    var id := GenerateId(p);
    assert forall i :: 0 <= i < |id| ==> AlphabetPos(id[i]) == p[i];
    assert Positions(id).value == p;
  }

  /** Every string of the generated shape is produced by some draw, so the
      shape is exactly the set of ids the generator can return. */
  lemma GeneratedShapeIsReachable(id: string)
    requires IsGeneratedShape(id)
    ensures exists p: Sample :: GenerateId(p) == id
  {
    AlphabetPosInverts();
    assert forall i :: 0 <= i < |id| ==> AlphabetPos(id[i]) >= 0;
    var p := Positions(id).value;
    assert forall i :: 0 <= i < |id| ==> IdChars[p[i]] == id[i];
    assert IsSample(p) by {
      forall i, j | 0 <= i < j < |p|
        ensures p[i] != p[j]
      {
        assert IdChars[p[i]] == id[i] && IdChars[p[j]] == id[j];
      }
    }
    var s: Sample := p;
    assert GenerateId(s) == id;
  }
}
