/**
 * The scan of the course page: every link matched by the sidebar selector is
 * read for its `data-bbb-id` attribute and its text, and the pairs worth
 * processing are appended, in page order, to `video_data`.
 */
module LinkScan {
  import opened Optional
  import opened Text

  /**
   * What reading one link element gave: the attribute (absent when the link
   * has none) and the text, or an exception raised by either read.
   */
  datatype ElementRead = Read(id: Option<string>, text: string) | ReadRaised

  /** One entry of `video_data`: the link's id and its raw, unstripped text. */
  type VideoEntry = (string, string)

  /** The test `bbb_id and text_content.strip()`. */
  predicate Qualifies(cls: CharClasses, e: ElementRead)
  {
    e.Read? && e.id.Some? && e.id.value != [] && !IsBlank(cls, e.text)
  }

  function Entry(e: ElementRead): VideoEntry
    requires e.Read? && e.id.Some?
  {
    (e.id.value, e.text)
  }

  /** The entries the scan appends for `els`, in order; defined on the last element, as the loop meets it. */
  function Candidates(cls: CharClasses, els: seq<ElementRead>): (r: seq<VideoEntry>)
    ensures |r| <= |els|
    ensures forall p :: p in r ==> p.0 != [] && !IsBlank(cls, p.1)
  {
    if els == [] then []
    else
      var last := els[|els| - 1];
      Candidates(cls, els[..|els| - 1]) + if Qualifies(cls, last) then [Entry(last)] else []
  }

  /** The loop at the heart of the scan. */
  method CollectVideoData(cls: CharClasses, elements: seq<ElementRead>) returns (videoData: seq<VideoEntry>)
    ensures videoData == Candidates(cls, elements)
  {
    videoData := [];
    var i := 0;
    while i < |elements|
      invariant 0 <= i <= |elements|
      invariant videoData == Candidates(cls, elements[..i])
    {
      var el := elements[i];
      assert elements[..i + 1][..i] == elements[..i];
      match el {
        case ReadRaised =>
        case Read(bbbId, textContent) =>
          if bbbId.Some? && bbbId.value != [] && !IsBlank(cls, textContent) {
            videoData := videoData + [(bbbId.value, textContent)];
          }
      }
      i := i + 1;
    }
    assert elements[..i] == elements;
  }

  /** Scanning two stretches of the page one after the other gives the two results concatenated. */
  lemma {:induction false} CandidatesAppend(cls: CharClasses, a: seq<ElementRead>, b: seq<ElementRead>)
    ensures Candidates(cls, a + b) == Candidates(cls, a) + Candidates(cls, b)
    decreases |b|
  {
    if b != [] {
      var b' := b[..|b| - 1];
      assert (a + b)[..|a + b| - 1] == a + b';
      assert (a + b)[|a + b| - 1] == b[|b| - 1];
      CandidatesAppend(cls, a, b');
    } else {
      assert a + b == a;
    }
  }

  /**
   * No qualifying link is lost and order is kept: a qualifying element's entry
   * sits between the entries of the elements before it and those after it.
   */
  lemma CandidatesKeepQualifying(cls: CharClasses, els: seq<ElementRead>, i: nat)
    requires i < |els| && Qualifies(cls, els[i])
    ensures Candidates(cls, els) ==
      Candidates(cls, els[..i]) + [Entry(els[i])] + Candidates(cls, els[i + 1..])
  {
    CandidatesSplit(cls, els, i);
  }

  /** A link that does not qualify, including one whose read raised, adds nothing. */
  lemma CandidatesSkipOthers(cls: CharClasses, els: seq<ElementRead>, i: nat)
    requires i < |els| && !Qualifies(cls, els[i])
    ensures Candidates(cls, els) == Candidates(cls, els[..i]) + Candidates(cls, els[i + 1..])
  {
    CandidatesSplit(cls, els, i);
  }

  lemma CandidatesSplit(cls: CharClasses, els: seq<ElementRead>, i: nat)
    requires i < |els|
    ensures Candidates(cls, els) ==
      Candidates(cls, els[..i]) + Candidates(cls, [els[i]]) + Candidates(cls, els[i + 1..])
    ensures Candidates(cls, [els[i]]) == if Qualifies(cls, els[i]) then [Entry(els[i])] else []
  {
    var pre, mid, post := els[..i], [els[i]], els[i + 1..];
    assert els == (pre + mid) + post;
    CandidatesAppend(cls, pre + mid, post);
    CandidatesAppend(cls, pre, mid);
    assert mid[..0] == [];
  }

  /** Every entry comes from some element of the page. */
  lemma {:induction false} CandidatesFromElements(cls: CharClasses, els: seq<ElementRead>)
    ensures forall p :: p in Candidates(cls, els) ==> Read(Some(p.0), p.1) in els
    decreases |els|
  {
    if els != [] {
      var init := els[..|els| - 1];
      CandidatesFromElements(cls, init);
      forall p | p in Candidates(cls, els) ensures Read(Some(p.0), p.1) in els {
        if p in Candidates(cls, init) {
          assert Read(Some(p.0), p.1) in init;
        } else {
          assert els[|els| - 1] == Read(Some(p.0), p.1);
        }
      }
    }
  }
}
