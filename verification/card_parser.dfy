/**
 * The card-reader client's decoder of raw magnetic-stripe track data
 * (`parse_card_info` in rad_raspberry/main.py).
 *
 * A track is accepted when it has exactly two `=` and more than fifteen
 * characters. The identity is the text between the first `%` and the next `%`
 * (within the part before the first `?`), minus one trailing padding
 * character; the badge is the text between the first and the second `=`,
 * minus one leading padding character. An identity shorter than seven
 * characters is rejected. A track with no `%` before its first `?` makes the
 * Python code raise an IndexError, which its caller swallows; here that is
 * the outcome `Crashed`.
 */
module CardParser {
  import opened Strings

  /** What the reader's track yields: `[penn_id, badge_id, card_info]`. */
  datatype Card = Card(pennId: string, badgeId: string, trackData: string)

  datatype ParseResult =
    | Accepted(card: Card)
    | Rejected  // `None`
    | Crashed   // IndexError at `split("%")[1]`

  /** The number of `=` separators a track must hold. */
  const SeparatorCount: nat := 2
  /** A track must be strictly longer than this. */
  const MinTrackLength: nat := 15
  /** The shortest identity accepted. */
  const MinIdLength: nat := 7

  /** The first check of the decoder: separator count and length. */
  predicate WellFramed(raw: string)
  {
    Count(raw, '=') == SeparatorCount && |raw| > MinTrackLength
  }

  /** Identity: between the first `%` and the next `%` of the text before the
      first `?`, without its last character. */
  function IdentityField(raw: string): string
  {
    DropLast(Before(After(Before(raw, '?'), '%'), '%'))
  }

  /** Badge: between the first and the second `=`, without its first character. */
  function BadgeField(raw: string): string
  {
    DropFirst(Before(After(raw, '='), '='))
  }

  function ParseCardInfo(raw: string): (r: ParseResult)
    ensures !WellFramed(raw) ==> r == Rejected
    ensures r.Accepted? ==> |r.card.pennId| >= MinIdLength && r.card.trackData == raw
    ensures r.Crashed? ==> WellFramed(raw)
  {
    if Count(raw, '=') == SeparatorCount && |raw| > MinTrackLength then
      var idParts := Split(Split(raw, '?')[0], '%');
      if |idParts| < 2 then Crashed
      else
        var pennId := DropLast(idParts[1]);
        var badgeId := DropFirst(Split(raw, '=')[1]);
        if |pennId| < MinIdLength then Rejected
        else Accepted(Card(pennId, badgeId, raw))
    else
      Rejected
  }

  /** The decoder, stated through the first occurrences of the separators
      rather than through `split`: the three outcomes and both fields. */
  lemma ParseCardInfoFields(raw: string)
    ensures ParseCardInfo(raw) ==
      if !WellFramed(raw) then Rejected
      else if '%' !in Before(raw, '?') then Crashed
      else if |IdentityField(raw)| < MinIdLength then Rejected
      else Accepted(Card(IdentityField(raw), BadgeField(raw), raw))
  {
    if WellFramed(raw) {
      var head := Before(raw, '?');
      SplitHead(raw, '?');
      SplitHead(head, '%');
      SplitHead(raw, '=');
      assert '=' in raw;
      if '%' !in head {
        assert Count(head, '%') == 0;
      }
    }
  }

  /** With exactly two `=`, the text after the first holds one more and the
      text after that holds none. */
  lemma SecondSeparator(raw: string)
    requires Count(raw, '=') == SeparatorCount
    ensures '=' in After(raw, '=') && '=' !in After(After(raw, '='), '=')
  {
    var rest := After(raw, '=');
    assert '=' in raw;
    SplitHead(raw, '=');
    assert |Split(rest, '=')| == 2;
    SplitHead(rest, '=');
    assert |Split(After(rest, '='), '=')| == 1;
  }

  /** With exactly two `=` the badge field is closed by the second `=`: the
      track is its prefix, `=`, the field, `=`, and an `=`-free rest. */
  lemma BadgeFieldExists(raw: string)
    requires Count(raw, '=') == SeparatorCount
    ensures '=' in After(raw, '=')
    ensures raw == Before(raw, '=') + ['='] + Before(After(raw, '='), '=') + ['=']
                   + After(After(raw, '='), '=')
    ensures '=' !in After(After(raw, '='), '=')
  {
    SecondSeparator(raw);
    TwoSeparatorsDecompose(raw);
  }

  /** A text with an `=` after its first `=` is its prefix, `=`, the field up
      to the second `=`, `=`, and the rest. */
  lemma TwoSeparatorsDecompose(raw: string)
    requires '=' in raw && '=' in After(raw, '=')
    ensures raw == Before(raw, '=') + ['='] + Before(After(raw, '='), '=') + ['=']
                   + After(After(raw, '='), '=')
  {
    var rest := After(raw, '=');
    var a, b, tail := Before(raw, '='), Before(rest, '='), After(rest, '=');
    FirstOccurrence(raw, '=');
    FirstOccurrence(rest, '=');
    assert a + ['='] + (b + ['='] + tail) == a + ['='] + b + ['='] + tail;
  }

  /** A track laid out by the reader's format: leading text, `%`, the identity,
      one padding character, `?`, middle text, `=`, one padding character, the
      badge, `=`, trailing text. */
  function Track(lead: string, pennId: string, idPad: char, mid: string,
                 badgePad: char, badgeId: string, tail: string): string
  {
    lead + ['%'] + pennId + [idPad] + ['?'] + mid + ['='] + [badgePad] + badgeId + ['='] + tail
  }

  /** The `?`- and `%`-split of a formatted track isolate the padded identity. */
  lemma TrackIdentityPieces(lead: string, pennId: string, idPad: char, afterQ: string)
    requires '%' !in lead && '?' !in lead
    requires '%' !in pennId && '?' !in pennId && idPad !in "%?"
    ensures var raw := lead + ['%'] + pennId + [idPad] + ['?'] + afterQ;
            Split(Split(raw, '?')[0], '%') == [lead, pennId + [idPad]]
  {
    var idText := pennId + [idPad];
    var head := lead + ['%'] + idText;
    assert lead + ['%'] + pennId + [idPad] + ['?'] + afterQ == head + ['?'] + afterQ;
    SplitAtFirst(head, afterQ, '?');
    SplitAtFirst(lead, idText, '%');
    SplitNoSeparator(idText, '%');
  }

  /** The `=`-split of a formatted track has three pieces, the middle one the
      padded badge. */
  lemma TrackBadgePieces(first: string, badgePad: char, badgeId: string, tail: string)
    requires '=' !in first && badgePad != '=' && '=' !in badgeId && '=' !in tail
    ensures var raw := first + ['='] + [badgePad] + badgeId + ['='] + tail;
            Split(raw, '=') == [first, [badgePad] + badgeId, tail]
  {
    var field := [badgePad] + badgeId;
    assert first + ['='] + [badgePad] + badgeId + ['='] + tail == first + ['='] + (field + ['='] + tail);
    SplitAtFirst(first, field + ['='] + tail, '=');
    SplitAtFirst(field, tail, '=');
    SplitNoSeparator(tail, '=');
  }

  /** The decoder reads off its result from the pieces of the two splits. */
  lemma ParseFromPieces(raw: string, lead: string, idText: string, first: string, field: string, tail: string)
    requires |raw| > MinTrackLength
    requires Split(Split(raw, '?')[0], '%') == [lead, idText]
    requires Split(raw, '=') == [first, field, tail]
    ensures ParseCardInfo(raw) ==
      if |DropLast(idText)| >= MinIdLength then Accepted(Card(DropLast(idText), DropFirst(field), raw))
      else Rejected
  {
    assert Count(raw, '=') == 2;
  }

  /** Round trip: a track built from the format's fields decodes back to them,
      unless the identity is too short. */
  lemma ParseTrack(lead: string, pennId: string, idPad: char, mid: string,
                   badgePad: char, badgeId: string, tail: string)
    requires '%' !in lead && '?' !in lead && '=' !in lead
    requires '%' !in pennId && '?' !in pennId && '=' !in pennId
    requires idPad !in "%?="
    requires '=' !in mid && badgePad != '=' && '=' !in badgeId && '=' !in tail
    requires |Track(lead, pennId, idPad, mid, badgePad, badgeId, tail)| > MinTrackLength
    ensures var raw := Track(lead, pennId, idPad, mid, badgePad, badgeId, tail);
            ParseCardInfo(raw) ==
              if |pennId| >= MinIdLength then Accepted(Card(pennId, badgeId, raw)) else Rejected
  {
    var raw := Track(lead, pennId, idPad, mid, badgePad, badgeId, tail);
    var afterQ := mid + ['='] + [badgePad] + badgeId + ['='] + tail;
    var first := lead + ['%'] + pennId + [idPad] + ['?'] + mid;
    assert raw == lead + ['%'] + pennId + [idPad] + ['?'] + afterQ;
    assert raw == first + ['='] + [badgePad] + badgeId + ['='] + tail;
    TrackIdentityPieces(lead, pennId, idPad, afterQ);
    assert '=' !in first;
    TrackBadgePieces(first, badgePad, badgeId, tail);
    ParseFromPieces(raw, lead, pennId + [idPad], first, [badgePad] + badgeId, tail);
    assert DropLast(pennId + [idPad]) == pennId;
    assert DropFirst([badgePad] + badgeId) == badgeId;
  }

  /** The reader's sample swipe: `B%12345670?;=1BADGE99=99` yields identity
      `1234567` and badge `BADGE99`. */
  lemma SampleTrack()
    ensures ParseCardInfo("B%12345670?;=1BADGE99=99")
         == Accepted(Card("1234567", "BADGE99", "B%12345670?;=1BADGE99=99"))
  {
    assert "B%12345670?;=1BADGE99=99" == Track("B", "1234567", '0', ";", '1', "BADGE99", "99");
    ParseTrack("B", "1234567", '0', ";", '1', "BADGE99", "99");
  }

  /** A six-character identity is too short even when the framing is right. */
  lemma ShortIdentityRejected()
    ensures ParseCardInfo("B%1234560?;=1BADGE99=99") == Rejected
  {
    assert "B%1234560?;=1BADGE99=99" == Track("B", "123456", '0', ";", '1', "BADGE99", "99");
    ParseTrack("B", "123456", '0', ";", '1', "BADGE99", "99");
  }
}
