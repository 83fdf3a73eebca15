/** The catalogue number printed on a card: the id in decimal, left-padded
    with zeros to three characters (`id.toString().padStart(3, "0")`). */
module PokemonCard {
  import opened JsText

  function Max(a: int, b: int): int {
    if a < b then b else a
  }

  /** The label is three characters long unless the printed id is longer;
      it ends with the printed id and everything in front of it is '0'. */
  function IdLabel(id: int): (text: string)
    ensures |text| == Max(3, |ToDecimal(id)|)
    ensures var digits := ToDecimal(id);
      text[|text| - |digits|..] == digits &&
      forall i :: 0 <= i < |text| - |digits| ==> text[i] == '0'
  {
    PadStart(ToDecimal(id), 3, "0")
  }

  /** Ids of three or more digits are printed unpadded. */
  lemma LabelOfLargeId(id: int)
    requires id >= 100
    ensures IdLabel(id) == ToDecimal(id)
  {
    DecimalLengthBound(id, 2);
    assert Pow10(2) == 100;
  }

  /** Ids below ten get exactly two leading zeros, ids below a hundred one. */
  lemma LabelOfSmallId(id: int)
    requires 0 <= id < 100
    ensures id < 10 ==> IdLabel(id) == "00" + [DigitChar(id)]
    ensures 10 <= id ==> IdLabel(id) == "0" + ToDecimal(id) && |ToDecimal(id)| == 2
  {
    DecimalLengthBound(id, 2);
    DecimalLengthBound(id, 1);
    assert Pow10(2) == 100 && Pow10(1) == 10;
  }

  lemma LabelExamples()
    ensures IdLabel(7) == "007"
    ensures IdLabel(25) == "025"
    ensures IdLabel(151) == "151"
    ensures IdLabel(-1) == "0-1"
  {
    LabelOfSmallId(7);
    LabelOfSmallId(25);
    LabelOfLargeId(151);
  }

  /** Drops every leading '0'. */
  function StripLeadingZeros(s: string): string {
    if |s| > 0 && s[0] == '0' then StripLeadingZeros(s[1..]) else s
  }

  lemma {:induction false} StripZeroRun(s: string, k: nat)
    requires k < |s| && s[k] != '0'
    requires forall i :: 0 <= i < k ==> s[i] == '0'
    ensures StripLeadingZeros(s) == s[k..]
  {
    if k > 0 {
      StripZeroRun(s[1..], k - 1);
      assert s[1..][k - 1..] == s[k..];
    }
  }

  /** For positive ids, dropping the padding gives back the printed id. */
  lemma LabelStripRoundTrip(id: int)
    requires id >= 1
    ensures StripLeadingZeros(IdLabel(id)) == ToDecimal(id)
  {
    var text := IdLabel(id);
    var digits := ToDecimal(id);
    StripZeroRun(text, |text| - |digits|);
  }

  /** Different non-negative ids never share a label. */
  lemma LabelInjective(a: int, b: int)
    requires a >= 0 && b >= 0
    requires IdLabel(a) == IdLabel(b)
    ensures a == b
  {
    if a >= 1 {
      LabelStripRoundTrip(a);
    }
    if b >= 1 {
      LabelStripRoundTrip(b);
    }
    if a >= 1 && b >= 1 {
      DecimalInjective(a, b);
    }
  }
}
