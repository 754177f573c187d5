/** The identifiers the status board builds from a station's coordinates:
    the composite station key (sst-doc.js:605), the line id `updateStation`
    cuts out of it (sst-doc.js:176-193), and the element ids built with
    `clearwhitespace` (sst-doc.js:507-509). */
module StationIds {
  import opened Wrappers
  import opened JsText

  /** The station key the click handler stores in `selectedStationID`:
      warehouse, department, line and station joined by '-'. */
  function StationKey(whid: string, dept: string, line: string, stid: string): string {
    whid + "-" + dept + "-" + line + "-" + stid
  }

  /** The position of the last `c` in `s`, if any. */
  function LastIndexOf(s: string, c: char): (r: Option<nat>)
    ensures r.None? <==> c !in s
    ensures r.Some? ==> r.value < |s| && s[r.value] == c && c !in s[r.value + 1..]
    decreases |s|
  {
    if |s| == 0 then None
    else if s[|s| - 1] == c then Some(|s| - 1)
    else
      var r := LastIndexOf(s[..|s| - 1], c);
      assert s == s[..|s| - 1] + [s[|s| - 1]];
      if r.Some? then
        assert s[r.value + 1..] == s[..|s| - 1][r.value + 1..] + [s[|s| - 1]];
        r
      else r
  }

  /** The line id `updateStation` sends: the key up to its last '-', or the
      whole key when it has none (`substring(0, undefined)`). */
  function LineIdOf(key: string): (lineId: string)
    ensures '-' !in key ==> lineId == key
    ensures '-' in key ==> && |lineId| < |key| && key[..|lineId|] == lineId
                           && key[|lineId|] == '-' && '-' !in key[|lineId| + 1..]
  {
    match LastIndexOf(key, '-')
    case None => key
    case Some(i) => key[..i]
  }

  /** The loop of sst-doc.js:181-188: scan the key from the end for '-' and
      cut there. */
  method DeriveLineId(dat: string) returns (lineId: string)
    ensures lineId == LineIdOf(dat)
  {
    var resp: Option<nat> := None;
    var i := |dat| - 1;
    while i >= 0
      invariant -1 <= i < |dat|
      invariant '-' !in dat[i + 1..]
      decreases i + 1
    {
      if dat[i] == '-' {
        resp := Some(i);
        break;
      }
      assert dat[i..] == [dat[i]] + dat[i + 1..];
      i := i - 1;
    }
    lineId := match resp
      case None => dat
      case Some(cut) => dat[..cut];
    LineIdUnique(dat, lineId, resp);
  }

  /** A prefix followed by '-' and a '-'-free tail is what LineIdOf returns. */
  lemma LineIdUnique(dat: string, lineId: string, resp: Option<nat>)
    requires resp.None? ==> '-' !in dat && lineId == dat
    requires resp.Some? ==> resp.value < |dat| && dat[resp.value] == '-'
                            && '-' !in dat[resp.value + 1..] && lineId == dat[..resp.value]
    ensures lineId == LineIdOf(dat)
  {
    if resp.Some? {
      LastIndexOfUnique(dat, '-', resp.value);
    }
  }

  /** The last occurrence is the one with no further occurrence after it. */
  lemma {:induction false} LastIndexOfUnique(s: string, c: char, k: nat)
    requires k < |s| && s[k] == c && c !in s[k + 1..]
    ensures LastIndexOf(s, c) == Some(k)
    decreases |s|
  {
    if k < |s| - 1 {
      assert s[|s| - 1] == s[k + 1..][|s| - k - 2];
      var init := s[..|s| - 1];
      assert init[k + 1..] == s[k + 1..][..|s| - k - 2];
      LastIndexOfUnique(init, c, k);
    }
  }

  /** Cutting at the last '-' undoes appending '-' and a '-'-free tail. */
  lemma LineIdOfSplit(prefix: string, tail: string)
    requires '-' !in tail
    ensures LineIdOf(prefix + "-" + tail) == prefix
  {
    var s := prefix + "-" + tail;
    assert s[|prefix|] == '-';
    assert s[|prefix| + 1..] == tail;
    assert s[..|prefix|] == prefix;
    LineIdUnique(s, prefix, Some(|prefix|));
  }

  /** The line id written for a station key names the station's line,
      provided the station id itself has no '-'. */
  lemma LineIdOfStationKey(whid: string, dept: string, line: string, stid: string)
    requires '-' !in stid
    ensures LineIdOf(StationKey(whid, dept, line, stid)) == whid + "-" + dept + "-" + line
  {
    LineIdOfSplit(whid + "-" + dept + "-" + line, stid);
  }

  /** A station id containing '-' moves the cut into the station id: the line
      id then ends inside it, at its own last '-'. */
  lemma DashInStationIdMovesCut(whid: string, dept: string, line: string, stid: string)
    requires '-' in stid
    ensures LineIdOf(StationKey(whid, dept, line, stid))
         == whid + "-" + dept + "-" + line + "-" + LineIdOf(stid)
  {
    var k := LineIdOf(stid);
    var tail := stid[|k| + 1..];
    assert stid == k + "-" + tail;
    var head := whid + "-" + dept + "-" + line + "-";
    assert StationKey(whid, dept, line, stid) == head + k + "-" + tail;
    LineIdOfSplit(head + k, tail);
  }

  /** Joining at a '-' can be undone when the first part has no '-'. */
  lemma SplitAtFirstDash(x: string, y: string, x': string, y': string)
    requires '-' !in x && '-' !in x'
    requires x + "-" + y == x' + "-" + y'
    ensures x == x' && y == y'
  {
    var s := x + "-" + y;
    assert |x| == |x'| by {
      assert s[|x|] == '-' && s[|x'|] == '-';
    }
    assert x == s[..|x|] && x' == s[..|x'|];
    assert y == s[|x| + 1..] && y' == s[|x'| + 1..];
  }

  /** Different stations get different keys as long as the warehouse,
      department and line ids have no '-'. */
  lemma StationKeyInjective(whid: string, dept: string, line: string, stid: string,
                            whid': string, dept': string, line': string, stid': string)
    requires '-' !in whid && '-' !in dept && '-' !in line
    requires '-' !in whid' && '-' !in dept' && '-' !in line'
    requires StationKey(whid, dept, line, stid) == StationKey(whid', dept', line', stid')
    ensures whid == whid' && dept == dept' && line == line' && stid == stid'
  {
    var rest := dept + "-" + (line + "-" + stid);
    var rest' := dept' + "-" + (line' + "-" + stid');
    assert StationKey(whid, dept, line, stid) == whid + "-" + rest;
    assert StationKey(whid', dept', line', stid') == whid' + "-" + rest';
    SplitAtFirstDash(whid, rest, whid', rest');
    SplitAtFirstDash(dept, line + "-" + stid, dept', line' + "-" + stid');
    SplitAtFirstDash(line, stid, line', stid');
  }

  // ---------------------------------------------------------------------
  // clearwhitespace

  predicate NoSpace(s: string) {
    forall i :: 0 <= i < |s| ==> !IsJsSpace(s[i])
  }

  /** `str.replace(/\s/g, "")`: every character of the `\s` class removed. */
  function ClearWhitespace(s: string): (r: string)
    ensures NoSpace(r)
    ensures |r| <= |s|
  {
    if |s| == 0 then []
    else (if IsJsSpace(s[0]) then [] else [s[0]]) + ClearWhitespace(s[1..])
  }

  /** Every character outside the `\s` class survives, as often as it occurs. */
  lemma {:induction false} ClearWhitespaceKeepsOthers(s: string, c: char)
    requires !IsJsSpace(c)
    ensures multiset(ClearWhitespace(s))[c] == multiset(s)[c]
    decreases |s|
  {
    if |s| > 0 {
      assert s == [s[0]] + s[1..];
      ClearWhitespaceKeepsOthers(s[1..], c);
    }
  }

  lemma {:induction false} ClearWhitespaceOfNoSpace(s: string)
    requires NoSpace(s)
    ensures ClearWhitespace(s) == s
    decreases |s|
  {
    if |s| > 0 {
      assert NoSpace(s[1..]) by {
        forall i | 0 <= i < |s| - 1 ensures !IsJsSpace(s[1..][i]) {
          assert s[1..][i] == s[i + 1];
        }
      }
      ClearWhitespaceOfNoSpace(s[1..]);
    }
  }

  /** Removing whitespace twice is removing it once. */
  lemma ClearWhitespaceIdempotent(s: string)
    ensures ClearWhitespace(ClearWhitespace(s)) == ClearWhitespace(s)
  {
    ClearWhitespaceOfNoSpace(ClearWhitespace(s));
  }

  /** Whitespace removal works piece by piece, so it keeps the order of what remains. */
  lemma {:induction false} ClearWhitespaceAppend(a: string, b: string)
    ensures ClearWhitespace(a + b) == ClearWhitespace(a) + ClearWhitespace(b)
    decreases |a|
  {
    if |a| > 0 {
      assert (a + b)[0] == a[0] && (a + b)[1..] == a[1..] + b;
      ClearWhitespaceAppend(a[1..], b);
    } else {
      assert a + b == b;
    }
  }

  /** The id given to the radio input for status `str` (sst-doc.js:676). */
  function InputId(str: string, text: string): string {
    ClearWhitespace(str + "-" + text)
  }

  /** The id given to the note above the input for status `str` (sst-doc.js:577). */
  function NoteId(str: string, text: string): string {
    str + ClearWhitespace(text) + "-note"
  }

  /** Whitespace-free text in front of a string passes through unchanged. */
  lemma ClearAfterNoSpace(head: string, rest: string)
    requires NoSpace(head)
    ensures ClearWhitespace(head + rest) == head + ClearWhitespace(rest)
  {
    ClearWhitespaceAppend(head, rest);
    ClearWhitespaceOfNoSpace(head);
  }

  /** Whitespace-free text behind a string passes through unchanged. */
  lemma ClearBeforeNoSpace(mid: string, tail: string)
    requires NoSpace(tail)
    ensures ClearWhitespace(mid + tail) == ClearWhitespace(mid) + tail
  {
    ClearWhitespaceAppend(mid, tail);
    ClearWhitespaceOfNoSpace(tail);
  }

  /** Whitespace-free text around a string passes through unchanged. */
  lemma ClearAroundNoSpace(head: string, mid: string, tail: string)
    requires NoSpace(head) && NoSpace(tail)
    ensures ClearWhitespace(head + mid + tail) == head + ClearWhitespace(mid) + tail
  {
    assert head + mid + tail == head + (mid + tail);
    ClearAfterNoSpace(head, mid + tail);
    ClearBeforeNoSpace(mid, tail);
  }

  /** The statuses a slider offers an input and a note for (sst-doc.js:517-519). */
  predicate IsSliderStatus(s: string) {
    s == "up" || s == "down" || s == "issues"
  }

  /** Two strings with a common head and tail are equal exactly when their
      middles are. */
  lemma SameAround(h: string, a: string, b: string, t: string)
    ensures h + a + t == h + b + t <==> a == b
  {
    if h + a + t == h + b + t {
      assert |a| == |b|;
      assert a == (h + a + t)[|h|..|h| + |a|];
      assert b == (h + b + t)[|h|..|h| + |b|];
    }
  }

  lemma ClearNoteSelector(cstatus: string, text: string)
    ensures ClearWhitespace("#" + cstatus + text + "-note")
         == "#" + ClearWhitespace(cstatus) + ClearWhitespace(text) + "-note"
  {
    assert NoSpace("#") && NoSpace("-note");
    assert "#" + cstatus + text + "-note" == "#" + (cstatus + text) + "-note";
    ClearAroundNoSpace("#", cstatus + text, "-note");
    ClearWhitespaceAppend(cstatus, text);
  }

  lemma ClearInputSelector(cstatus: string, text: string)
    ensures ClearWhitespace("#" + cstatus + "-" + text)
         == "#" + ClearWhitespace(cstatus) + "-" + ClearWhitespace(text)
  {
    assert NoSpace("#") && NoSpace("-");
    assert "#" + cstatus + "-" + text == "#" + (cstatus + ("-" + text));
    ClearAfterNoSpace("#", cstatus + ("-" + text));
    ClearWhitespaceAppend(cstatus, "-" + text);
    ClearAfterNoSpace("-", text);
  }

  /** The note selector the handler builds from the persisted status
      (sst-doc.js:629) finds the note of slider status `s` (sst-doc.js:577)
      exactly when the persisted status, white space removed, is `s`. */
  lemma RevertFindsNoteOf(cstatus: string, text: string, s: string)
    requires NoSpace(s)
    ensures ClearWhitespace("#" + cstatus + text + "-note") == "#" + NoteId(s, text)
        <==> ClearWhitespace(cstatus) == s
  {
    var t := ClearWhitespace(text) + "-note";
    NoteSelectorShape(cstatus, text);
    NoteIdShape(s, text);
    SameAround("#", ClearWhitespace(cstatus), s, t);
  }

  lemma NoteIdShape(s: string, text: string)
    ensures "#" + NoteId(s, text) == "#" + s + (ClearWhitespace(text) + "-note")
  {
    assert NoteId(s, text) == s + (ClearWhitespace(text) + "-note");
  }

  lemma NoteSelectorShape(cstatus: string, text: string)
    ensures ClearWhitespace("#" + cstatus + text + "-note")
         == "#" + ClearWhitespace(cstatus) + (ClearWhitespace(text) + "-note")
  {
    ClearNoteSelector(cstatus, text);
    assert "#" + ClearWhitespace(cstatus) + ClearWhitespace(text) + "-note"
        == "#" + ClearWhitespace(cstatus) + (ClearWhitespace(text) + "-note");
  }

  /** The input selector the handler builds from the persisted status
      (sst-doc.js:628) finds the input of slider status `s` (sst-doc.js:676)
      exactly when the persisted status, white space removed, is `s`. */
  lemma RevertFindsInputOf(cstatus: string, text: string, s: string)
    requires NoSpace(s)
    ensures ClearWhitespace("#" + cstatus + "-" + text) == "#" + InputId(s, text)
        <==> ClearWhitespace(cstatus) == s
  {
    var t := "-" + ClearWhitespace(text);
    InputSelectorShape(cstatus, text);
    InputIdShape(s, text);
    SameAround("#", ClearWhitespace(cstatus), s, t);
  }

  lemma InputSelectorShape(cstatus: string, text: string)
    ensures ClearWhitespace("#" + cstatus + "-" + text)
         == "#" + ClearWhitespace(cstatus) + ("-" + ClearWhitespace(text))
  {
    ClearInputSelector(cstatus, text);
    assert "#" + ClearWhitespace(cstatus) + "-" + ClearWhitespace(text)
        == "#" + ClearWhitespace(cstatus) + ("-" + ClearWhitespace(text));
  }

  lemma InputIdShape(s: string, text: string)
    requires NoSpace(s)
    ensures "#" + InputId(s, text) == "#" + s + ("-" + ClearWhitespace(text))
  {
    InputIdOfNoSpace(s, text);
  }

  /** For a status without white space the input id keeps the status as is. */
  lemma InputIdOfNoSpace(s: string, text: string)
    requires NoSpace(s)
    ensures InputId(s, text) == s + ("-" + ClearWhitespace(text))
  {
    assert s + "-" + text == s + ("-" + text);
    ClearAfterNoSpace(s, "-" + text);
    DashThenText(text);
  }

  lemma DashThenText(text: string)
    ensures ClearWhitespace("-" + text) == "-" + ClearWhitespace(text)
  {
    assert NoSpace("-");
    ClearAfterNoSpace("-", text);
  }

  lemma SliderStatusesHaveNoSpace(s: string)
    requires IsSliderStatus(s)
    ensures NoSpace(s) && |s| > 0
  {
  }

  /** The input id of a slider status starts with the status and is one
      character longer than the status and the cleaned text together. */
  lemma InputIdOfSlider(s: string, text: string)
    requires IsSliderStatus(s)
    ensures |InputId(s, text)| == |s| + 1 + |ClearWhitespace(text)|
    ensures InputId(s, text)[0] == s[0]
  {
    SliderStatusesHaveNoSpace(s);
    InputIdOfNoSpace(s, text);
  }

  /** The six element ids a station's slider creates (sst-doc.js:577 and
      sst-doc.js:676) are pairwise distinct: different statuses start with
      different letters, and an input id is never the note id of the same
      status, being four characters shorter. */
  lemma SliderIdsDistinct(s: string, s': string, text: string)
    requires IsSliderStatus(s) && IsSliderStatus(s')
    ensures InputId(s, text) == InputId(s', text) <==> s == s'
    ensures NoteId(s, text) == NoteId(s', text) <==> s == s'
    ensures InputId(s, text) != NoteId(s', text)
  {
    InputIdOfSlider(s, text);
    InputIdOfSlider(s', text);
    assert NoteId(s, text)[0] == s[0] && NoteId(s', text)[0] == s'[0];
  }
}
