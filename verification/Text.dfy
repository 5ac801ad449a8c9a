/** Zero-terminated text in character buffers. A pointer into a buffer is the buffer and an index. */
module Text {

  /** The buffer holds the text at the index, followed by the terminating character. */
  ghost predicate HoldsText(buf: seq<char>, start: nat, text: string) {
    && start + |text| < |buf|
    && buf[start..start + |text|] == text
    && '\0' !in text
    && buf[start + |text|] == '\0'
  }

  lemma TextAt(buf: seq<char>, start: nat, text: string, i: nat)
    requires HoldsText(buf, start, text) && i < |text|
    ensures buf[start + i] == text[i] != '\0'
  {
    assert buf[start..start + |text|][i] == buf[start + i];
    assert text[i] in text;
  }

  /** The length of the text at an index. */
  method StrLen(buf: array<char>, start: nat, ghost text: string) returns (len: nat)
    requires HoldsText(buf[..], start, text)
    ensures len == |text|
  {
    len := 0;
    if 0 < |text| { TextAt(buf[..], start, text, 0); }
    while buf[start + len] != '\0'
      invariant len <= |text|
      invariant len < |text| ==> buf[start + len] != '\0'
      decreases |text| - len
    {
      len := len + 1;
      if len < |text| { TextAt(buf[..], start, text, len); }
    }
  }
}
