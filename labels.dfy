/** Track labels of the form "Artist - Title", which both inventories build
    and the comparison works on. */
module Labels {
  import opened Wrappers

  /** The text that joins artist and title in every label. */
  const Separator: string := " - "

  /** The label `f"{artist} - {title}"`: the artist, the separator, the title. */
  function Label(artist: string, title: string): (r: string)
    ensures |r| == |artist| + |Separator| + |title|
    ensures r[..|artist|] == artist
    ensures r[|artist|..|artist| + |Separator|] == Separator
    ensures r[|artist| + |Separator|..] == title
  {
    artist + Separator + title
  }

  /** A separator begins at position `k` of `s`. */
  predicate SeparatorAt(s: string, k: nat)
  {
    k + |Separator| <= |s| && s[k..k + |Separator|] == Separator
  }

  /** The first position at or after `from` where a separator begins. */
  function FindSeparator(s: string, from: nat): (r: Option<nat>)
    ensures r.Some? ==> from <= r.value && SeparatorAt(s, r.value)
    ensures forall k: nat :: from <= k && (r.None? || k < r.value) ==> !SeparatorAt(s, k)
    decreases |s| - from
  {
    if |s| < from + |Separator| then None
    else if SeparatorAt(s, from) then Some(from)
    else FindSeparator(s, from + 1)
  }

  /** Splits a label at its first separator into (artist, title): the inverse of Label. */
  function SplitLabel(s: string): (r: Option<(string, string)>)
    ensures r.Some? ==> Label(r.value.0, r.value.1) == s
    ensures r.Some? ==> forall k: nat :: k < |r.value.0| ==> !SeparatorAt(s, k)
    ensures r.None? <==> forall k: nat :: !SeparatorAt(s, k)
  {
    match FindSeparator(s, 0)
    case None => None
    case Some(k) =>
      assert s == s[..k] + Separator + s[k + |Separator|..];
      Some((s[..k], s[k + |Separator|..]))
  }

  /** No separator begins inside `artist`, not even one that the separator
      appended by Label would complete (as in an artist ending in " -"). */
  predicate PlainArtist(artist: string)
  {
    forall k: nat :: k < |artist| ==> !SeparatorAt(artist + Separator, k)
  }

  /** A label whose artist holds no separator splits back into its artist and title. */
  lemma SplitLabelInverse(artist: string, title: string)
    requires PlainArtist(artist)
    ensures SplitLabel(Label(artist, title)) == Some((artist, title))
  {
    var s := Label(artist, title);
    var head := artist + Separator;
    assert s[..|head|] == head;
    forall k: nat | k < |artist|
      ensures !SeparatorAt(s, k)
    {
      if SeparatorAt(s, k) {
        assert s[k..k + |Separator|] == head[k..k + |Separator|];
        assert SeparatorAt(head, k);
        assert false;
      }
    }
    assert SeparatorAt(s, |artist|);
    var found := FindSeparator(s, 0);
    assert found == Some(|artist|);
  }

  /** Two labels built from separator-free artists are equal only when artist and title are. */
  lemma LabelInjective(a1: string, t1: string, a2: string, t2: string)
    requires PlainArtist(a1) && PlainArtist(a2)
    requires Label(a1, t1) == Label(a2, t2)
    ensures a1 == a2 && t1 == t2
  {
    SplitLabelInverse(a1, t1);
    SplitLabelInverse(a2, t2);
  }
}
