/** The collector's reply and the statistics parsed out of its info text
    (response.go). */
module Responses {
  import opened Wrappers
  import opened Text

  datatype RedirectInfo = RedirectInfo(revision: int, address: string)

  /** redirect is Go's *RedirectInfo: None when the reply carries none. */
  datatype Response = Response(response: string, info: string, redirect: Option<RedirectInfo>)

  /** A zero-valued Response, as returned beside most errors. */
  const ZeroResponse := Response("", "", None)

  /** The counters GetInfo fills. The elapsed time (Spent) is not modelled:
      only whether its text parses matters here. */
  datatype ResponseInfo = ResponseInfo(processed: int, failed: int, total: int)

  const ZeroInfo := ResponseInfo(0, 0, 0)

  datatype InfoError =
    | NotSuccess(response: string)          // GetInfo on a reply that is not "success"
    | SegmentCount(got: nat, info: string)   // not exactly 4 ';'-separated segments
    | TokenCount(got: nat, segment: string)  // a segment not made of exactly 2 ':'-separated tokens
    | BadSeconds(value: string)              // "seconds spent" whose value is not a number

  /** parseHostPort: a redirect address is usable exactly when it contains ':',
      and then it is used unchanged. */
  function ParseHostPort(addr: string): (r: Option<string>)
    ensures r.Some? <==> ':' in addr
    ensures r.Some? ==> r.value == addr
  {
    if ':' !in addr then None else Some(addr)
  }

  // ---------------------------------------------------------------------------
  // The info parser, as a specification

  /** The trimmed key of a segment. */
  function KeyOf(segment: string): string
  {
    TrimSpace(Split(segment, ':')[0])
  }

  /** The trimmed value of a segment ("" when it has no ':'). */
  function ValueOf(segment: string): string
  {
    var tokens := Split(segment, ':');
    if |tokens| >= 2 then TrimSpace(tokens[1]) else ""
  }

  /** A segment GetInfo accepts: two tokens, and a number after "seconds spent". */
  predicate SegmentAccepted(segment: string)
  {
    |Split(segment, ':')| == 2 && (KeyOf(segment) == "seconds spent" ==> IsFloat(ValueOf(segment)))
  }

  /** What strconv.Atoi leaves in a counter: its value, or 0 when the text is
      not an integer, since the error it returns is never looked at. */
  function CounterValue(value: string): int
  {
    match Atoi(value)
    case Some(n) => n
    case None => 0
  }

  /** One arm of the switch: a known counter key overwrites its field, every
      other key leaves the statistics alone. */
  function Apply(info: ResponseInfo, key: string, value: string): ResponseInfo
  {
    if key == "processed" then info.(processed := CounterValue(value))
    else if key == "failed" then info.(failed := CounterValue(value))
    else if key == "total" then info.(total := CounterValue(value))
    else info
  }

  /** The loop of GetInfo from a given segment on, with the fields filled so far. */
  function ParseSegments(segments: seq<string>, acc: ResponseInfo): Result<ResponseInfo, InfoError>
  {
    if segments == [] then Ok(acc)
    else
      var segment := segments[0];
      var tokens := Split(segment, ':');
      if |tokens| != 2 then Err(TokenCount(|tokens|, segment))
      else if KeyOf(segment) == "seconds spent" && !IsFloat(ValueOf(segment)) then Err(BadSeconds(ValueOf(segment)))
      else ParseSegments(segments[1..], Apply(acc, KeyOf(segment), ValueOf(segment)))
  }

  /** What GetInfo computes for a reply. */
  function Info(r: Response): Result<ResponseInfo, InfoError>
  {
    if r.response != "success" then Err(NotSuccess(r.response))
    else
      var segments := Split(r.info, ';');
      if |segments| != 4 then Err(SegmentCount(|segments|, r.info))
      else ParseSegments(segments, ZeroInfo)
  }

  /** GetInfo: refuses a reply that is not "success", then walks the four
      segments and fills the counters, stopping at the first bad segment. */
  method GetInfo(r: Response) returns (res: Result<ResponseInfo, InfoError>)
    ensures res == Info(r)
    ensures r.response != "success" ==> res == Err(NotSuccess(r.response))
  {
    var ret := ZeroInfo;
    if r.response != "success" {
      return Err(NotSuccess(r.response));
    }
    var sp := Split(r.info, ';');
    if |sp| != 4 {
      return Err(SegmentCount(|sp|, r.info));
    }
    var i := 0;
    while i < |sp|
      invariant 0 <= i <= |sp|
      invariant ParseSegments(sp, ZeroInfo) == ParseSegments(sp[i..], ret)
    {
      var sp2 := Split(sp[i], ':');
      if |sp2| != 2 {
        return Err(TokenCount(|sp2|, sp[i]));
      }
      var key := TrimSpace(sp2[0]);
      var value := TrimSpace(sp2[1]);
      if key == "processed" {
        ret := ret.(processed := CounterValue(value));
      } else if key == "failed" {
        ret := ret.(failed := CounterValue(value));
      } else if key == "total" {
        ret := ret.(total := CounterValue(value));
      } else if key == "seconds spent" {
        if !IsFloat(value) {
          return Err(BadSeconds(value));
        }
      }
      i := i + 1;
    }
    return Ok(ret);
  }

  // ---------------------------------------------------------------------------
  // What the parser promises

  /** Index of the last segment whose key is key, if any. */
  function LastWithKey(segments: seq<string>, key: string): (r: Option<nat>)
    ensures r.Some? ==> r.value < |segments| && KeyOf(segments[r.value]) == key
    ensures r.Some? ==> forall k :: r.value < k < |segments| ==> KeyOf(segments[k]) != key
    ensures r.None? ==> forall k :: 0 <= k < |segments| ==> KeyOf(segments[k]) != key
  {
    if segments == [] then None
    else match LastWithKey(segments[1..], key)
      case Some(j) => Some(j + 1)
      case None => if KeyOf(segments[0]) == key then Some(0) else None
  }

  /** The counter a key ends up with: the value of its last segment, or what
      it was before when no segment names it. */
  function Counter(segments: seq<string>, key: string, before: int): int
  {
    match LastWithKey(segments, key)
    case Some(j) => CounterValue(ValueOf(segments[j]))
    case None => before
  }

  /** The parse succeeds exactly when every segment is accepted; a bad
      processed, failed or total value never makes it fail. */
  lemma {:induction false} ParseSegmentsSucceeds(segments: seq<string>, acc: ResponseInfo)
    ensures ParseSegments(segments, acc).Ok? <==> forall k :: 0 <= k < |segments| ==> SegmentAccepted(segments[k])
  {
    if segments != [] {
      ParseSegmentsSucceeds(segments[1..], Apply(acc, KeyOf(segments[0]), ValueOf(segments[0])));
      assert forall k :: 1 <= k < |segments| ==> segments[k] == segments[1..][k - 1];
    }
  }

  /** On success each counter holds the value of the last segment naming it,
      and unknown keys change nothing. */
  lemma {:induction false} ParseSegmentsFields(segments: seq<string>, acc: ResponseInfo)
    requires ParseSegments(segments, acc).Ok?
    ensures var info := ParseSegments(segments, acc).value;
      && info.processed == Counter(segments, "processed", acc.processed)
      && info.failed == Counter(segments, "failed", acc.failed)
      && info.total == Counter(segments, "total", acc.total)
  {
    if segments != [] {
      var key, value := KeyOf(segments[0]), ValueOf(segments[0]);
      var next := Apply(acc, key, value);
      assert ParseSegments(segments, acc) == ParseSegments(segments[1..], next);
      ParseSegmentsFields(segments[1..], next);
      CounterStep(segments, "processed", acc.processed);
      CounterStep(segments, "failed", acc.failed);
      CounterStep(segments, "total", acc.total);
    }
  }

  /** The counter of a key over segments is its counter over the later
      segments, starting from what the first segment leaves in it. */
  lemma CounterStep(segments: seq<string>, key: string, before: int)
    requires segments != []
    ensures Counter(segments, key, before)
         == Counter(segments[1..], key, if KeyOf(segments[0]) == key then CounterValue(ValueOf(segments[0])) else before)
  {
  }

  /** GetInfo fails on every reply that is not "success", the zero reply included. */
  lemma InfoNeedsSuccess(r: Response)
    ensures r.response != "success" ==> Info(r).Err?
    ensures Info(ZeroResponse) == Err(NotSuccess(""))
  {
  }

  /** GetInfo succeeds exactly when the reply is "success", its info text has
      four segments and each segment is accepted; then every counter is the
      value of the last segment naming it, or 0. */
  lemma InfoSpec(r: Response)
    ensures Info(r).Ok? <==>
      && r.response == "success"
      && |Split(r.info, ';')| == 4
      && forall k :: 0 <= k < 4 ==> SegmentAccepted(Split(r.info, ';')[k])
    ensures Info(r).Ok? ==>
      var segments := Split(r.info, ';');
      && Info(r).value.processed == Counter(segments, "processed", 0)
      && Info(r).value.failed == Counter(segments, "failed", 0)
      && Info(r).value.total == Counter(segments, "total", 0)
  {
    var segments := Split(r.info, ';');
    ParseSegmentsSucceeds(segments, ZeroInfo);
    if Info(r).Ok? {
      ParseSegmentsFields(segments, ZeroInfo);
    }
  }

  /** The characters a numeral is written with. */
  predicate IsNumeralChar(c: char)
  {
    IsDigit(c) || c == '+' || c == '-' || c == '.' || c == 'e' || c == 'E'
  }

  /** The info text a collector sends after accepting data,
      "processed: P; failed: F; total: T; seconds spent: S", parses into P, F and T. */
  lemma StandardInfo(p: string, f: string, t: string, sec: string)
    requires p != [] && AllDigits(p) && f != [] && AllDigits(f) && t != [] && AllDigits(t)
    requires IsFloat(sec) && sec != [] && forall k :: 0 <= k < |sec| ==> IsNumeralChar(sec[k])
    ensures Info(Response("success", "processed: " + p + "; failed: " + f + "; total: " + t + "; seconds spent: " + sec, None))
         == Ok(ResponseInfo(DigitsValue(p), DigitsValue(f), DigitsValue(t)))
  {
    var s0, s1, s2, s3 := "processed" + ": " + p, " " + "failed" + ": " + f, " " + "total" + ": " + t, " " + "seconds spent" + ": " + sec;
    StandardSegments(p, f, t, sec);
    KnownKeys();
    DigitsNumeral(p);
    DigitsNumeral(f);
    DigitsNumeral(t);
    NumeralSegment("processed", p, "processed");
    NumeralSegment(" " + "failed", f, "failed");
    NumeralSegment(" " + "total", t, "total");
    NumeralSegment(" " + "seconds spent", sec, "seconds spent");
    FourSegments(s0, s1, s2, s3, ZeroInfo);
    CounterDigits(p);
    CounterDigits(f);
    CounterDigits(t);
  }

  /** Decimal digits are numeral characters. */
  lemma DigitsNumeral(v: string)
    requires AllDigits(v)
    ensures forall j :: 0 <= j < |v| ==> IsNumeralChar(v[j])
  {
  }

  /** A counter written in decimal digits holds their value. */
  lemma CounterDigits(v: string)
    requires v != [] && AllDigits(v)
    ensures CounterValue(v) == DigitsValue(v)
  {
  }

  /** A key as GetInfo compares it: no ':', not empty, no blank at either end. */
  predicate PlainKey(k: string)
  {
    ':' !in k && k != [] && !IsSpace(k[0]) && !IsSpace(k[|k| - 1])
  }

  /** The keys of the standard info text are plain. */
  lemma KnownKeys()
    ensures PlainKey("processed") && PlainKey("failed") && PlainKey("total") && PlainKey("seconds spent")
  {
  }

  /** The segments of a standard info text are accepted, with the expected keys and values. */
  lemma NumeralSegment(key: string, v: string, k: string)
    requires key == k || key == " " + k
    requires PlainKey(k)
    requires v != [] && forall j :: 0 <= j < |v| ==> IsNumeralChar(v[j])
    requires k == "seconds spent" ==> IsFloat(v)
    ensures SegmentAccepted(key + ": " + v)
    ensures KeyOf(key + ": " + v) == k && ValueOf(key + ": " + v) == v
  {
    assert ':' !in v by {
      assert forall j :: 0 <= j < |v| ==> v[j] != ':';
    }
    StandardSegment(key, v, k);
  }

  /** Four accepted segments are folded into the statistics one after the other. */
  lemma FourSegments(s0: string, s1: string, s2: string, s3: string, acc: ResponseInfo)
    requires SegmentAccepted(s0) && SegmentAccepted(s1) && SegmentAccepted(s2) && SegmentAccepted(s3)
    ensures ParseSegments([s0, s1, s2, s3], acc) ==
      var a1 := Apply(acc, KeyOf(s0), ValueOf(s0));
      var a2 := Apply(a1, KeyOf(s1), ValueOf(s1));
      var a3 := Apply(a2, KeyOf(s2), ValueOf(s2));
      Ok(Apply(a3, KeyOf(s3), ValueOf(s3)))
  {
    var a1 := Apply(acc, KeyOf(s0), ValueOf(s0));
    var a2 := Apply(a1, KeyOf(s1), ValueOf(s1));
    var a3 := Apply(a2, KeyOf(s2), ValueOf(s2));
    ParseStep(s3, [], a3);
    assert [s3] + [] == [s3];
    ParseStep(s2, [s3], a2);
    assert [s2] + [s3] == [s2, s3];
    ParseStep(s1, [s2, s3], a1);
    assert [s1] + [s2, s3] == [s1, s2, s3];
    ParseStep(s0, [s1, s2, s3], acc);
    assert [s0] + [s1, s2, s3] == [s0, s1, s2, s3];
  }

  /** One round of the loop over the segments, for an accepted segment. */
  lemma ParseStep(segment: string, rest: seq<string>, acc: ResponseInfo)
    requires SegmentAccepted(segment)
    ensures ParseSegments([segment] + rest, acc) == ParseSegments(rest, Apply(acc, KeyOf(segment), ValueOf(segment)))
  {
    assert ([segment] + rest)[1..] == rest;
  }

  /** The standard info text splits into its four segments, each a key, ": " and a value. */
  lemma StandardSegments(p: string, f: string, t: string, sec: string)
    requires AllDigits(p) && AllDigits(f) && AllDigits(t)
    requires forall k :: 0 <= k < |sec| ==> IsNumeralChar(sec[k])
    ensures Split("processed: " + p + "; failed: " + f + "; total: " + t + "; seconds spent: " + sec, ';')
         == ["processed" + ": " + p, " " + "failed" + ": " + f, " " + "total" + ": " + t, " " + "seconds spent" + ": " + sec]
  {
    StandardSplit(p, f, t, sec);
    assert "processed: " == "processed" + ": " && " failed: " == " " + "failed" + ": "
        && " total: " == " " + "total" + ": " && " seconds spent: " == " " + "seconds spent" + ": ";
  }

  /** The split itself, with the segments written as they appear in the text. */
  lemma StandardSplit(p: string, f: string, t: string, sec: string)
    requires AllDigits(p) && AllDigits(f) && AllDigits(t)
    requires forall k :: 0 <= k < |sec| ==> IsNumeralChar(sec[k])
    ensures Split("processed: " + p + "; failed: " + f + "; total: " + t + "; seconds spent: " + sec, ';')
         == ["processed: " + p, " failed: " + f, " total: " + t, " seconds spent: " + sec]
  {
    var s0, s1, s2, s3 := "processed: " + p, " failed: " + f, " total: " + t, " seconds spent: " + sec;
    JoinFour(s0, s1, s2, s3, ';');
    NoSeparator(p);
    NoSeparator(f);
    NoSeparator(t);
    assert ';' !in sec by {
      assert forall k :: 0 <= k < |sec| ==> sec[k] != ';';
    }
    assert "; failed: " == [';'] + " failed: " && "; total: " == [';'] + " total: "
        && "; seconds spent: " == [';'] + " seconds spent: ";
    SeparatedAppend(s0, ';', " failed: ", f);
    SeparatedAppend(s0 + [';'] + s1, ';', " total: ", t);
    SeparatedAppend(s0 + [';'] + s1 + [';'] + s2, ';', " seconds spent: ", sec);
    SplitJoin([s0, s1, s2, s3], ';');
  }

  /** Digits hold no ';'. */
  lemma NoSeparator(v: string)
    requires AllDigits(v)
    ensures ';' !in v
  {
    assert forall k :: 0 <= k < |v| ==> v[k] != ';';
  }

  /** Regrouping x, a separator-led tag and a value as x, the separator and the tag with its value. */
  lemma SeparatedAppend(x: string, sep: char, tag: string, v: string)
    ensures x + ([sep] + tag) + v == x + [sep] + (tag + v)
  {
    AppendAssociative(x, [sep], tag);
    AppendAssociative(x + [sep], tag, v);
  }

  /** The reply the package's tests use: processed 1, failed 0, total 1. */
  lemma InfoExample()
    ensures Info(Response("success", "processed: " + "1" + "; failed: " + "0" + "; total: " + "1" + "; seconds spent: " + "0.000030", None))
         == Ok(ResponseInfo(1, 0, 1))
  {
    var sec := "0.000030";
    SecondsExample();
    NumeralExample();
    assert DigitsValue("1") == 1 && DigitsValue("0") == 0;
    StandardInfo("1", "0", "1", sec);
  }

  /** The seconds of that reply are written with numeral characters only. */
  lemma NumeralExample()
    ensures forall k :: 0 <= k < |"0.000030"| ==> IsNumeralChar("0.000030"[k])
  {
  }

  /** A segment "key: value", the key with at most one leading blank. */
  lemma StandardSegment(key: string, v: string, k: string)
    requires ':' !in key && ':' !in v
    requires key == k || key == " " + k
    requires k != [] && !IsSpace(k[0]) && !IsSpace(k[|k| - 1])
    requires v != [] && !IsSpace(v[0]) && !IsSpace(v[|v| - 1])
    ensures |Split(key + ": " + v, ':')| == 2
    ensures KeyOf(key + ": " + v) == k && ValueOf(key + ": " + v) == v
  {
    SegmentSplit(key, v);
    BlankTrimmed(key, k);
    BlankTrimmed(" " + v, v);
  }

  /** "key: value" splits at its one ':' into the key and the value with its blank. */
  lemma SegmentSplit(key: string, v: string)
    requires ':' !in key && ':' !in v
    ensures Split(key + ": " + v, ':') == [key, " " + v]
  {
    var value := " " + v;
    assert ": " == ":" + " ";
    AppendAssociative(key, ":", " ");
    AppendAssociative(key + ":", " ", v);
    assert Join([key, value], ':') == key + ":" + value;
    SplitJoin([key, value], ':');
  }

  /** Trimming drops at most one leading blank from a string with no blank at its ends. */
  lemma BlankTrimmed(s: string, t: string)
    requires s == t || s == " " + t
    requires t != [] && !IsSpace(t[0]) && !IsSpace(t[|t| - 1])
    ensures TrimSpace(s) == t
  {
    TrimSpaceShape(t);
    if s != t {
      assert s[1..] == t;
      assert TrimLeft(s) == TrimLeft(t);
    }
  }

  /** The seconds of that reply are a float. */
  lemma SecondsExample()
    ensures IsFloat("0.000030")
  {
    DecimalIsFloat("0", "000030");
    assert "0" + "." + "000030" == "0.000030";
  }
}
