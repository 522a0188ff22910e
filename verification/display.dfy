/** The pure pieces of the viewer in src/main.go: cell truncation and the
    state the program starts in. Lengths are byte lengths; each `char` stands
    for one byte, and truncation may cut a multi-byte character, as in Go. */
module Display {
  import opened Types

  /** The width of the To and Subject columns of the email list. */
  const ListWidth := 30

  const Ellipsis := "..."

  /** truncateString. A negative `maxLen` makes the Go slice panic, so the
      width is a natural number. */
  function TruncateString(s: string, maxLen: nat): (r: string)
    ensures |r| == if |s| <= maxLen then |s| else maxLen
    ensures r == s <==> |s| <= maxLen
    ensures |s| > maxLen && maxLen <= 3 ==> r == s[..maxLen]
    ensures |s| > maxLen > 3 ==>
      r[..maxLen - 3] == s[..maxLen - 3] && r[maxLen - 3..] == Ellipsis
  {
    if |s| <= maxLen then s
    else if maxLen <= 3 then s[..maxLen]
    else s[..maxLen - 3] + Ellipsis
  }

  /** Truncating what already fits changes nothing: a fixed width is a
      fixed point after one application. */
  lemma TruncateIdempotent(s: string, maxLen: nat)
    ensures TruncateString(TruncateString(s, maxLen), maxLen) == TruncateString(s, maxLen)
  {
  }

  /** Whatever is cut keeps a prefix of the original. */
  lemma TruncateKeepsPrefix(s: string, maxLen: nat)
    ensures var r := TruncateString(s, maxLen);
      var kept := if |s| <= maxLen then |s| else if maxLen <= 3 then maxLen else maxLen - 3;
      kept <= |r| && r[..kept] == s[..kept]
  {
  }

  /** The inline truncation of the To and Subject cells in updateEmailList. */
  function ListCell(s: string): (r: string)
    ensures r == TruncateString(s, ListWidth)
  {
    if |s| > ListWidth then s[..ListWidth - 3] + Ellipsis else s
  }

  /** The state main builds before the first layout. */
  function InitialState(): (st: AppState)
    ensures st.selectedEmailIndex == -1 && |st.emails| == 0
    ensures st.mode == "text" && !st.showPopup && st.popupScroll == 0
  {
    AppState(-1, [], "text", false, 0)
  }
}
