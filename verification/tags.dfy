/** The tag codec. A component keeps its tags in one comma-separated string
    column; clients see them as a list of trimmed, non-empty strings. */
module Tags {
  import opened Strings

  /** Non-empty, and neither starting nor ending with whitespace: what
      `strip()` returns for a non-blank string (and, by `StripTrimmed`, its
      own strip). */
  predicate Trimmed(t: string)
  {
    t != [] && !IsSpace(t[0]) && !IsSpace(t[|t| - 1])
  }

  /** A tag as a client sees it: non-empty, stripped, and free of commas. */
  predicate IsTag(t: string)
  {
    Trimmed(t) && ',' !in t
  }

  /** One entry of `[t.strip() for t in ts if t.strip()]`: the stripped
      entry, or nothing when it is blank. */
  function Keep(t: string): (r: seq<string>)
    ensures |r| <= 1
    ensures |r| == 1 <==> !AllSpace(t)
    ensures |r| == 1 ==> r[0] == Strip(t) && Trimmed(r[0])
  {
    var head := Strip(t);
    if head == "" then [] else [head]
  }

  /** `[t.strip() for t in ts if t.strip()]`: each entry stripped, blank
      entries dropped, order kept. */
  function Normalize(ts: seq<string>): (r: seq<string>)
    ensures |r| <= |ts|
    ensures forall i :: 0 <= i < |r| ==> Trimmed(r[i])
  {
    if |ts| == 0 then [] else Keep(ts[0]) + Normalize(ts[1..])
  }

  /** `Component.tag_list()`: the stored string split on commas, each piece
      stripped, blank pieces dropped. Every element is a tag. */
  function TagList(stored: string): (r: seq<string>)
    ensures forall i :: 0 <= i < |r| ==> IsTag(r[i])
  {
    var pieces := Split(stored, ',');
    NormalizeKeepsAbsence(pieces, ',');
    Normalize(pieces)
  }

  /** The tags string the JSON create and update paths store:
      `','.join(t.strip() for t in tags_list if t.strip())`. Reading it back
      gives the normalised input whenever no entry contains a comma. */
  function EncodeTags(ts: seq<string>): (r: string)
    ensures (forall i :: 0 <= i < |ts| ==> ',' !in ts[i]) ==> TagList(r) == Normalize(ts)
  {
    JoinNormalizedReadsBack(ts);
    Join(Normalize(ts), ',')
  }

  lemma JoinNormalizedReadsBack(ts: seq<string>)
    ensures (forall i :: 0 <= i < |ts| ==> ',' !in ts[i]) ==> TagList(Join(Normalize(ts), ',')) == Normalize(ts)
  {
    if forall i :: 0 <= i < |ts| ==> ',' !in ts[i] {
      NormalizeKeepsAbsence(ts, ',');
      var clean := Normalize(ts);
      assert forall i :: 0 <= i < |clean| ==> IsTag(clean[i]);
      TagListJoin(clean);
    }
  }

  // ---------------------------------------------------------------------------
  // Normalize

  /** A character absent from every entry is absent from every result. */
  lemma {:induction false} NormalizeKeepsAbsence(ts: seq<string>, c: char)
    requires forall i :: 0 <= i < |ts| ==> c !in ts[i]
    ensures forall i :: 0 <= i < |Normalize(ts)| ==> c !in Normalize(ts)[i]
    decreases |ts|
  {
    if |ts| > 0 {
      StripKeepsAbsence(ts[0], c);
      NormalizeKeepsAbsence(ts[1..], c);
    }
  }

  /** Normalising a concatenation normalises each part, in order. */
  lemma {:induction false} NormalizeConcat(a: seq<string>, b: seq<string>)
    ensures Normalize(a + b) == Normalize(a) + Normalize(b)
    decreases |a|
  {
    if |a| == 0 {
      assert a + b == b;
    } else {
      var ab := a + b;
      assert ab[0] == a[0] && ab[1..] == a[1..] + b;
      NormalizeConcat(a[1..], b);
      assert Normalize(ab) == Keep(a[0]) + (Normalize(a[1..]) + Normalize(b));
    }
  }

  /** Entries that are already stripped and non-empty pass through unchanged. */
  lemma {:induction false} NormalizeClean(ts: seq<string>)
    requires forall i :: 0 <= i < |ts| ==> Trimmed(ts[i])
    ensures Normalize(ts) == ts
    decreases |ts|
  {
    if |ts| > 0 {
      StripTrimmed(ts[0]);
      NormalizeClean(ts[1..]);
      assert [ts[0]] + ts[1..] == ts;
    }
  }

  // ---------------------------------------------------------------------------
  // properties of tag_list

  /** An empty column holds no tags. */
  lemma TagListOfEmpty()
    ensures TagList("") == []
  {
    assert Split("", ',') == [""];
  }

  /** `tag_list` works piece by piece, left to right: the tags of
      `a + "," + b` are the tags of `a` followed by the tags of `b`. */
  lemma TagListConcat(a: string, b: string)
    ensures TagList(a + [','] + b) == TagList(a) + TagList(b)
  {
    SplitAtSeparator(a, ',', b);
    NormalizeConcat(Split(a, ','), Split(b, ','));
  }

  /** Joining tags with commas and reading them back gives the same tags. */
  lemma {:induction false} TagListJoin(ts: seq<string>)
    requires forall i :: 0 <= i < |ts| ==> IsTag(ts[i])
    ensures TagList(Join(ts, ',')) == ts
  {
    if |ts| == 0 {
      TagListOfEmpty();
    } else {
      SplitJoin(ts, ',');
      NormalizeClean(ts);
    }
  }

  /** Idempotence through `join`: writing the tags of a column back as a
      comma-joined string and reading again changes nothing. */
  lemma TagListIdempotent(s: string)
    ensures TagList(Join(TagList(s), ',')) == TagList(s)
  {
    TagListJoin(TagList(s));
  }

  /** Stripping the raw tags string before storing it, as the multipart
      create path does, does not change the tags read back. */
  lemma TagListStrip(raw: string)
    ensures TagList(Strip(raw)) == TagList(raw)
  {
    var i := LeadingSpace(raw);
    var m := Strip(raw);
    var p, q := raw[..i], raw[i + |m|..];
    assert raw == p + (m + q);
    TagListPrefixSpace(p, m + q);
    TagListSuffixSpace(m, q);
  }

  lemma SpaceIsNotComma(s: string)
    requires AllSpace(s)
    ensures ',' !in s
  {
    assert forall k :: 0 <= k < |s| ==> s[k] != ',';
  }

  lemma TagListPrefixSpace(p: string, x: string)
    requires AllSpace(p)
    ensures TagList(p + x) == TagList(x)
  {
    SpaceIsNotComma(p);
    SplitPrepend(p, x, ',');
    var px := Split(x, ',');
    StripPrefixPadded(p, px[0]);
    NormalizeConcat([p + px[0]], px[1..]);
    NormalizeConcat([px[0]], px[1..]);
    assert [px[0]] + px[1..] == px;
  }

  lemma TagListSuffixSpace(x: string, q: string)
    requires AllSpace(q)
    ensures TagList(x + q) == TagList(x)
  {
    SpaceIsNotComma(q);
    SplitAppend(x, q, ',');
    var px := Split(x, ',');
    var n := |px|;
    var init, last := px[..n - 1], px[n - 1];
    assert Split(x + q, ',') == init + [last + q];
    assert px == init + [last];
    NormalizeConcat(init, [last + q]);
    NormalizeConcat(init, [last]);
    KeepSuffixSpace(last, q);
    NormalizeSingle(last + q);
    NormalizeSingle(last);
  }

  lemma NormalizeSingle(t: string)
    ensures Normalize([t]) == Keep(t)
  {
    assert [t][1..] == [];
  }

  lemma KeepSuffixSpace(t: string, q: string)
    requires AllSpace(q)
    ensures Keep(t + q) == Keep(t)
  {
    StripSuffixPadded(t, q);
  }

  /** The codec is lossy for an entry that contains a comma: `"a,b"` is
      stored as one string and comes back as the two tags `a` and `b`. */
  lemma CommaInTagSplits(a: string, b: string)
    requires IsTag(a) && IsTag(b)
    ensures TagList(EncodeTags([a + [','] + b])) == [a, b]
  {
    var t := a + [','] + b;
    assert t[0] == a[0] && t[|t| - 1] == b[|b| - 1];
    EncodeOneTag(t);
    TagListConcat(a, b);
    TagListOfOneTag(a);
    TagListOfOneTag(b);
  }

  /** A comma followed by whitespace separates two tags: `"alpha, beta"`
      reads as `["alpha", "beta"]`. */
  lemma TwoTagsWithPadding(a: string, pad: string, b: string)
    requires IsTag(a) && IsTag(b) && AllSpace(pad)
    ensures TagList(a + [','] + pad + b) == [a, b]
  {
    assert a + [','] + pad + b == a + [','] + (pad + b);
    TagListConcat(a, pad + b);
    TagListPrefixSpace(pad, b);
    TagListOfOneTag(a);
    TagListOfOneTag(b);
  }

  lemma EncodeOneTag(t: string)
    requires Trimmed(t)
    ensures EncodeTags([t]) == t
  {
    StripTrimmed(t);
    assert [t][1..] == [];
  }

  lemma TagListOfOneTag(t: string)
    requires IsTag(t)
    ensures TagList(t) == [t]
  {
    TagListJoin([t]);
  }
}
