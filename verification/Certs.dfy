/** The certificate header: `getCertCN` matches `/CN=(.*)$`, leftmost match first; the dot
    does not match a newline. */
module Certs {
  import opened Sequences

  predicate MarkerAt(text: string, i: nat) {
    i + 4 <= |text| && text[i] == '/' && text[i + 1] == 'C' && text[i + 2] == 'N' && text[i + 3] == '='
  }

  /** A match starts at `i`: the marker, and no newline from there to the end of the text. */
  predicate MatchAt(header: string, i: nat) {
    MarkerAt(header, i) && forall k :: i + 4 <= k < |header| ==> header[k] != '\n'
  }

  /** The leftmost match from position `i` on, or the length of the header. */
  function LeftmostMatch(header: string, i: nat): (m: nat)
    requires i <= |header|
    ensures i <= m <= |header|
    ensures m < |header| ==> MatchAt(header, m)
    ensures forall k :: i <= k < m ==> !MatchAt(header, k)
    decreases |header| - i
  {
    if i == |header| || MatchAt(header, i) then i else LeftmostMatch(header, i + 1)
  }

  function GetCertCN(header: string): Option<string> {
    var m := LeftmostMatch(header, 0);
    if m == |header| then None else Some(header[m + 4..])
  }

  predicate HasMarker(text: string) {
    exists i :: 0 <= i < |text| && MarkerAt(text, i)
  }

  lemma MarkersDoNotOverlap(prefix: string, cn: string, i: nat)
    requires i < |prefix|
    ensures MarkerAt(prefix + "/CN=" + cn, i) <==> MarkerAt(prefix, i)
  {
    var header := prefix + "/CN=" + cn;
    assert header[|prefix|] == '/';
    assert forall k :: 0 <= k < |prefix| ==> header[k] == prefix[k];
  }

  /** Two markers never overlap, so the marker put between a prefix and a name is the leftmost
      one exactly when the prefix has none: then, and only then, the name is read back. */
  lemma ReadsBackIff(prefix: string, cn: string)
    requires '\n' !in prefix && '\n' !in cn
    ensures GetCertCN(prefix + "/CN=" + cn) == Some(cn) <==> !HasMarker(prefix)
  {
    var header := prefix + "/CN=" + cn;
    var m := LeftmostMatch(header, 0);
    assert MarkerAt(header, |prefix|);
    assert forall k :: |prefix| + 4 <= k < |header| ==> header[k] == cn[k - |prefix| - 4];
    assert forall k :: 0 <= k < |prefix| ==> header[k] == prefix[k];
    assert MatchAt(header, |prefix|);
    forall i | 0 <= i < |prefix| ensures MarkerAt(header, i) <==> MarkerAt(prefix, i) {
      MarkersDoNotOverlap(prefix, cn, i);
    }
    if HasMarker(prefix) {
      var i :| 0 <= i < |prefix| && MarkerAt(prefix, i);
      assert MatchAt(header, i);
      assert |header[m + 4..]| > |cn|;
    } else {
      assert header[m + 4..] == cn;
    }
  }

  lemma MarkerSplits(header: string, prefix: string, cn: string)
    requires header == prefix + "/CN=" + cn
    ensures MarkerAt(header, |prefix|) && header[|prefix| + 4..] == cn
    ensures MatchAt(header, |prefix|) <==> '\n' !in cn
  {
    assert header[|prefix|..|prefix| + 4] == "/CN=";
    assert forall k :: |prefix| + 4 <= k < |header| ==> header[k] == cn[k - |prefix| - 4];
    assert forall k :: 0 <= k < |cn| ==> cn[k] == header[|prefix| + 4 + k];
  }

  /** What is read from a header is its text behind a marker. */
  lemma ReadIsSuffix(header: string, cn: string)
    requires GetCertCN(header) == Some(cn)
    ensures |cn| + 4 <= |header| && header == header[..|header| - |cn| - 4] + "/CN=" + cn
    ensures '\n' !in cn
  {
    var m := LeftmostMatch(header, 0);
    assert header[m..m + 4] == "/CN=";
    assert header == header[..m] + header[m..m + 4] + header[m + 4..];
  }

  /** On every header: the text behind the first marker with no newline after it, if there is one. */
  lemma GetCertCNMeans(header: string)
    ensures match GetCertCN(header)
      case None => forall prefix, rest :: header == prefix + "/CN=" + rest ==> '\n' in rest
      case Some(cn) =>
        && '\n' !in cn && |cn| + 4 <= |header| && header == header[..|header| - |cn| - 4] + "/CN=" + cn
        && forall prefix, rest :: header == prefix + "/CN=" + rest && |rest| > |cn| ==> '\n' in rest
  {
    forall prefix, rest | header == prefix + "/CN=" + rest && '\n' !in rest
      ensures GetCertCN(header).Some? && |rest| <= |GetCertCN(header).value|
    {
      MarkerSplits(header, prefix, rest);
    }
    if GetCertCN(header).Some? {
      ReadIsSuffix(header, GetCertCN(header).value);
    }
  }
}
