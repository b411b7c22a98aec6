/**
 * The challenge controller: a greeting page built from the `name` path
 * segment and the optional `count` query value. It is a pure function of
 * those two inputs; no session is read or written.
 */
module Challenge {
  import opened Wrappers
  import opened Text
  import opened Http

  /** Rust's `u8`, the type of the `count` query value. */
  newtype u8 = x: int | 0 <= x < 256

  /** Rust's arithmetic-overflow panic. */
  datatype Panic = AddOverflow

  /**
   * `count + 1` on a `u8` with overflow checks on (Rust's default debug
   * build): 255 has no successor and the handler panics.
   */
  function Increment(c: u8): (r: Result<u8, Panic>)
    ensures r.Ok? <==> c < 255
    ensures r.Ok? ==> r.value as int == c as int + 1
  {
    if c < 255 then Ok(c + 1) else Err(AddOverflow)
  }

  // ---------------------------------------------------------------------
  // Decimal text of a number, as `{}` formats it

  predicate IsDigit(ch: char)
  {
    '0' <= ch <= '9'
  }

  function Digit(d: nat): (ch: char)
    requires d < 10
    ensures IsDigit(ch) && ch as int - '0' as int == d
  {
    ('0' as int + d) as char
  }

  /** Decimal digits of `n`, most significant first, with no leading zero. */
  function Decimal(n: nat): (s: string)
    ensures |s| >= 1
    ensures forall k :: 0 <= k < |s| ==> IsDigit(s[k])
    ensures s[0] == '0' <==> n == 0
    decreases n
  {
    if n < 10 then [Digit(n)] else Decimal(n / 10) + [Digit(n % 10)]
  }

  function DigitValue(ch: char): (d: nat)
    requires IsDigit(ch)
    ensures d < 10 && Digit(d) == ch
  {
    ch as int - '0' as int
  }

  /** The number a run of digits denotes. */
  function DecimalValue(s: string): (n: nat)
    requires forall k :: 0 <= k < |s| ==> IsDigit(s[k])
  {
    if |s| == 0 then 0
    else DecimalValue(s[..|s| - 1]) * 10 + DigitValue(s[|s| - 1])
  }

  /** The printed number reads back as the number printed. */
  lemma {:induction false} DecimalRoundTrip(n: nat)
    ensures DecimalValue(Decimal(n)) == n
    decreases n
  {
    if n >= 10 {
      var s := Decimal(n);
      assert s[..|s| - 1] == Decimal(n / 10);
      DecimalRoundTrip(n / 10);
    }
  }

  // ---------------------------------------------------------------------
  // The page

  /** The embedded video shown next to a stated weight. */
  const Video: string := "<iframe width=\"560\" height=\"315\" src=\"https://www.youtube.com/embed/88M9-rBXubA\" frameborder=\"0\" allowfullscreen></iframe>"

  /** How both messages open. */
  const CanLift: string := "<p>Izzy Mandelbaum can lift "

  /** The text shown when no `count` is given. */
  const Tip: string := CanLift + "more weight than you.</p>" + TipHint

  /** The hint paragraph of the tip. */
  const TipHint: string := "<p><small>Tip: Append `?count=x`, where x is a number, to tell Izzy how much weight you can lift. Maybe you can lift more weight more than him?</small></p>"

  /** The weight in bold, as the message for a given `count` states it. */
  function StatedKgs(kgs: u8): (stated: string)
  {
    "<strong>" + Decimal(kgs as nat) + " kgs</strong>"
  }

  /** The text shown for a given `count`, stating `kgs` (the count plus one) and the video. */
  function LiftMessage(kgs: u8): (message: string)
    ensures IsInfix(StatedKgs(kgs), message) && IsInfix(Video, message)
  {
    var boast := ", so more weight than you!!.</p>";
    var before := CanLift + StatedKgs(kgs) + boast;
    InfixBetween(CanLift, StatedKgs(kgs), Outdone);
    ConcatAssoc(CanLift + StatedKgs(kgs), boast, Video);
    ConcatEmpty(before + Video);
    InfixBetween(before, Video, "");
    CanLift + StatedKgs(kgs) + Outdone
  }

  /** The rest of the message for a given `count`: the boast and the video. */
  const Outdone: string := ", so more weight than you!!.</p>" + Video

  /** The fixed text of `html` before the greeting and after the message. */
  const Head: string := "\n            <html>\n              <head>\n                <title>Izzy's weight challenge</title>\n              </head>\n              <body>\n                "
  const Tail: string := "\n                <br><br>\n                <a href='/'>Go Home</a>\n              </body>\n            </html>"

  /** The greeting line, the name in bold as it came in. */
  function Hello(name: string): (line: string)
  {
    "<p>Hello, " + ("<strong>" + name + "</strong>") + ".</p>\n                "
  }

  /** `html`: the page frame with the name, verbatim, and the inner message. */
  function Html(name: string, inner: string): (page: string)
    ensures IsInfix(inner, page)
    ensures IsInfix("<strong>" + name + "</strong>", page)
  {
    InfixBetween(Head + Hello(name), inner, Tail);
    InfixNested(Head, "<p>Hello, ", "<strong>" + name + "</strong>", ".</p>\n                ", inner, Tail);
    Head + Hello(name) + inner + Tail
  }

  /** The `match` of `index`: which message the page carries, or the overflow panic. */
  function Greeting(name: string, count: Option<u8>): (page: Result<string, Panic>)
    ensures page.Err? <==> count == Some(255)
  {
    match count
    case None => Ok(Html(name, Tip))
    case Some(c) =>
      match Increment(c)
      case Ok(kgs) => Ok(Html(name, LiftMessage(kgs)))
      case Err(e) => Err(e)
  }

  /**
   * `index`: a 200 HTML response with the greeting, for every name and every
   * count but 255, on which the increment panics.
   */
  function Index(name: string, count: Option<u8>): (r: Result<Response, Panic>)
    ensures r.Ok? <==> count != Some(255)
    ensures r.Ok? ==> r.value.status == OkStatus && r.value.contentType == Some(TextHtml)
    ensures r.Ok? ==> r.value.location == None && r.value.body == Greeting(name, count).value
  {
    match Greeting(name, count)
    case Ok(page) => Ok(HtmlPage(page))
    case Err(e) => Err(e)
  }

  // ---------------------------------------------------------------------
  // What the page says

  /** The frame gives the inner message back: one name, one page, one message. */
  lemma HtmlCancel(name: string, a: string, b: string)
    requires Html(name, a) == Html(name, b)
    ensures a == b
  {
    CancelMiddle(Head + Hello(name), a, b, Tail);
  }

  /** The name appears verbatim, inside `<strong>`…`</strong>`, on every page served. */
  lemma NameVerbatim(name: string, count: Option<u8>)
    requires Greeting(name, count).Ok?
    ensures IsInfix("<strong>" + name + "</strong>", Greeting(name, count).value)
  {
  }

  /**
   * With a count `c` below 255 the page states `c + 1` kgs in decimal (text
   * that reads back as `c + 1`) and carries the video.
   */
  lemma CountStated(name: string, c: u8)
    requires c < 255
    ensures Greeting(name, Some(c)).Ok?
    ensures var page := Greeting(name, Some(c)).value;
      IsInfix(StatedKgs(c + 1), page) && IsInfix(Video, page)
    ensures DecimalValue(Decimal(c as nat + 1)) == c as nat + 1
  {
    var message := LiftMessage(c + 1);
    InfixTransitive(StatedKgs(c + 1), message, Html(name, message));
    InfixTransitive(Video, message, Html(name, message));
    DecimalRoundTrip(c as nat + 1);
  }

  /** The message determines the weight it states. */
  lemma LiftMessageCancel(a: u8, b: u8)
    requires LiftMessage(a) == LiftMessage(b)
    ensures a == b
  {
    CancelMiddle(CanLift, StatedKgs(a), StatedKgs(b), Outdone);
    CancelMiddle("<strong>", Decimal(a as nat), Decimal(b as nat), " kgs</strong>");
    DecimalRoundTrip(a as nat);
    DecimalRoundTrip(b as nat);
  }

  /** Different counts give different pages: the stated weight determines the count. */
  lemma CountDetermined(name: string, a: u8, b: u8)
    requires a < 255 && b < 255
    requires Greeting(name, Some(a)) == Greeting(name, Some(b))
    ensures a == b
  {
    HtmlCancel(name, LiftMessage(a + 1), LiftMessage(b + 1));
    LiftMessageCancel(a + 1, b + 1);
  }

  /** The tip and a stated weight part ways right after their common opening. */
  lemma TipDiffers(kgs: u8)
    ensures Tip != LiftMessage(kgs)
  {
    var noCount := "more weight than you.</p>" + TipHint;
    var withCount := StatedKgs(kgs) + Outdone;
    assert noCount[0] == 'm' && withCount[0] == '<';
    assert Tip == CanLift + noCount;
    assert LiftMessage(kgs) == CanLift + withCount;
    CharAfter(CanLift, noCount);
    CharAfter(CanLift, withCount);
  }

  /** The page without a count differs from every page with one: it shows the tip instead. */
  lemma TipOnlyWithoutCount(name: string, c: u8)
    requires c < 255
    ensures Greeting(name, None) != Greeting(name, Some(c))
  {
    TipDiffers(c + 1);
    if Greeting(name, None) == Greeting(name, Some(c)) {
      HtmlCancel(name, Tip, LiftMessage(c + 1));
    }
  }
}
