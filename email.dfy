/**
 * Email notification: the address lists read from the environment, the
 * alert body (priority and one card per anomaly) and the guard checks and
 * recipient handling of a send. The SMTP conversation is a parameter
 * saying how far it got.
 */
module Email {
  import opened Wrappers
  import opened Monitor

  // ---------------------------------------------------------------------
  // Address lists
  // ---------------------------------------------------------------------

  /** Splits `s` at every `sep`, as Python's `str.split(sep)`: always at least one part. */
  function SplitOn(s: string, sep: char): (parts: seq<string>)
    ensures |parts| >= 1
    ensures forall i :: 0 <= i < |parts| ==> sep !in parts[i]
  {
    if s == [] then [""]
    else
      var rest := SplitOn(s[1..], sep);
      if s[0] == sep then [""] + rest
      else [[s[0]] + rest[0]] + rest[1..]
  }

  /** Joins `parts` with `sep` in between, as Python's `sep.join(parts)`. */
  function Join(parts: seq<string>, sep: string): string
  {
    if parts == [] then ""
    else if |parts| == 1 then parts[0]
    else parts[0] + sep + Join(parts[1..], sep)
  }

  /** Splitting and joining back with the same separator gives the original text. */
  lemma {:induction false} JoinSplit(s: string, sep: char)
    ensures Join(SplitOn(s, sep), [sep]) == s
  {
    if s != [] {
      var rest := SplitOn(s[1..], sep);
      JoinSplit(s[1..], sep);
      if s[0] == sep {
        assert ([""] + rest)[1..] == rest;
      } else if |rest| > 1 {
        var parts := [[s[0]] + rest[0]] + rest[1..];
        assert parts[1..] == rest[1..];
        assert Join(rest, [sep]) == rest[0] + [sep] + Join(rest[1..], [sep]);
        assert s == [s[0]] + s[1..];
      } else {
        assert s == [s[0]] + s[1..];
      }
    }
  }

  /** A part free of the separator splits to itself. */
  lemma {:induction false} SplitWithoutSep(p: string, sep: char)
    requires sep !in p
    ensures SplitOn(p, sep) == [p]
  {
    if p != [] {
      SplitWithoutSep(p[1..], sep);
      assert [p[0]] + p[1..] == p;
    }
  }

  /** The text up to the first separator becomes the first part. */
  lemma {:induction false} SplitAtFirstSep(p: string, sep: char, t: string)
    requires sep !in p
    ensures SplitOn(p + [sep] + t, sep) == [p] + SplitOn(t, sep)
  {
    if p == [] {
      assert p + [sep] + t == [sep] + t;
      assert ([sep] + t)[1..] == t;
    } else {
      SplitAtFirstSep(p[1..], sep, t);
      assert (p + [sep] + t)[1..] == p[1..] + [sep] + t;
      assert [p[0]] + p[1..] == p;
    }
  }

  /** Joining separator-free parts and splitting again gives the parts back. */
  lemma {:induction false} SplitJoin(parts: seq<string>, sep: char)
    requires parts != []
    requires forall i :: 0 <= i < |parts| ==> sep !in parts[i]
    ensures SplitOn(Join(parts, [sep]), sep) == parts
  {
    if |parts| == 1 {
      SplitWithoutSep(parts[0], sep);
    } else {
      SplitJoin(parts[1..], sep);
      SplitAtFirstSep(parts[0], sep, Join(parts[1..], [sep]));
      assert [parts[0]] + parts[1..] == parts;
    }
  }

  function OrEmpty(v: Option<string>): string {
    match v
    case None => ""
    case Some(s) => s
  }

  /** The recipient list: the variable (default empty) split at commas. */
  function RecipientList(env: Option<string>): (r: seq<string>)
    ensures Join(r, [',']) == OrEmpty(env)
    ensures OrEmpty(env) == "" ==> r == [""]
  {
    JoinSplit(OrEmpty(env), ',');
    SplitOn(OrEmpty(env), ',')
  }

  /** The Cc list: empty unless the variable is set to a non-empty text, then split at commas. */
  function CcList(env: Option<string>): (cc: seq<string>)
    ensures cc == [] <==> OrEmpty(env) == ""
    ensures cc != [] ==> Join(cc, [',']) == OrEmpty(env)
  {
    if OrEmpty(env) == "" then []
    else
      JoinSplit(OrEmpty(env), ',');
      SplitOn(OrEmpty(env), ',')
  }

  /** Whether the Cc addresses are used: a non-empty list other than the single blank. */
  predicate CcActive(cc: seq<string>) {
    cc != [] && cc != [""]
  }

  /** The header text of a non-empty list joined after another grows by exactly that list. */
  lemma {:induction false} JoinAppend(a: seq<string>, b: seq<string>, sep: string)
    requires a != [] && b != []
    ensures Join(a + b, sep) == Join(a, sep) + sep + Join(b, sep)
  {
    var ab := a + b;
    if |a| == 1 {
      assert ab[1..] == b;
      calc {
        Join(ab, sep);
        ab[0] + sep + Join(ab[1..], sep);
        a[0] + sep + Join(b, sep);
      }
    } else {
      assert ab[1..] == a[1..] + b;
      calc {
        Join(ab, sep);
        a[0] + sep + Join(a[1..] + b, sep);
        { JoinAppend(a[1..], b, sep); }
        a[0] + sep + (Join(a[1..], sep) + sep + Join(b, sep));
        (a[0] + sep + Join(a[1..], sep)) + sep + Join(b, sep);
      }
    }
  }

  // ---------------------------------------------------------------------
  // The message body
  // ---------------------------------------------------------------------

  /** True iff some anomaly lasted at least `threshold` minutes. */
  function HighPriority(anomalies: seq<EmailAnomaly>, threshold: real): (high: bool)
    ensures high <==> exists i :: 0 <= i < |anomalies| && anomalies[i].durationMin >= threshold
  {
    if anomalies == [] then false
    else anomalies[0].durationMin >= threshold || HighPriority(anomalies[1..], threshold)
  }

  /** One card of the body: its number, its own priority flag and the anomaly shown. */
  datatype Card = Card(number: int, highPriority: bool, anomaly: EmailAnomaly)

  /** The body, as the facts it shows: priority, total, detection time and the cards. */
  datatype Body = Body(highPriority: bool, total: int, detectionTime: int, cards: seq<Card>)

  /**
   * One card per anomaly, numbered from 1 in input order, each flagged
   * iff its own duration reaches the high-priority threshold; the header
   * is high priority iff some card is flagged.
   */
  method CreateEmailBody(anomalies: seq<EmailAnomaly>, detectionTime: int, threshold: real) returns (body: Body)
    ensures body.highPriority == HighPriority(anomalies, threshold)
    ensures body.total == |anomalies| && body.detectionTime == detectionTime
    ensures |body.cards| == |anomalies|
    ensures forall i :: 0 <= i < |anomalies| ==>
      body.cards[i].number == i + 1 && body.cards[i].anomaly == anomalies[i]
      && (body.cards[i].highPriority <==> anomalies[i].durationMin >= threshold)
    ensures body.highPriority <==> exists i :: 0 <= i < |body.cards| && body.cards[i].highPriority
  {
    var high := HighPriority(anomalies, threshold);
    var cards: seq<Card> := [];
    var idx := 1;
    while idx <= |anomalies|
      invariant 1 <= idx <= |anomalies| + 1
      invariant |cards| == idx - 1
      invariant forall i :: 0 <= i < idx - 1 ==>
        cards[i].number == i + 1 && cards[i].anomaly == anomalies[i]
        && (cards[i].highPriority <==> anomalies[i].durationMin >= threshold)
    {
      var anomaly := anomalies[idx - 1];
      var isHighPriority := anomaly.durationMin >= threshold;
      cards := cards + [Card(idx, isHighPriority, anomaly)];
      idx := idx + 1;
    }
    body := Body(high, |anomalies|, detectionTime, cards);
  }

  // ---------------------------------------------------------------------
  // Sending
  // ---------------------------------------------------------------------

  /** Why a send is refused before any message is built. */
  datatype Refusal = NoAnomalies | MissingCredentials | NoRecipients

  /** The guard checks, in order; `None` when the send may go ahead. */
  function Refused(anomalies: seq<EmailAnomaly>, sender: string, password: string, recipients: seq<string>)
    : (r: Option<Refusal>)
    ensures r == None <==> anomalies != [] && sender != "" && password != "" && recipients != [] && recipients != [""]
    ensures r == Some(NoAnomalies) <==> anomalies == []
    ensures r == Some(MissingCredentials) <==> anomalies != [] && (sender == "" || password == "")
  {
    if anomalies == [] then Some(NoAnomalies)
    else if sender == "" || password == "" then Some(MissingCredentials)
    else if recipients == [] || recipients == [""] then Some(NoRecipients)
    else None
  }

  /** How far the SMTP conversation got: connect, TLS and login come before the recipient update. */
  datatype SmtpOutcome = FailsBeforeLogin | FailsOnSend | Delivered

  /** The headers of the message and its body. */
  datatype Message = Message(count: int, from: string, to: string, cc: Option<string>, body: Body)

  class EmailConfig {
    const senderEmail: string
    const senderPassword: string
    const ccEmails: seq<string>
    const highPriorityDuration: real
    var recipientEmails: seq<string>

    /** The configuration read from the environment at start-up. */
    constructor (sender: Option<string>, password: Option<string>, recipients: Option<string>,
                 cc: Option<string>, highPriorityDuration: real)
      ensures senderEmail == OrEmpty(sender) && senderPassword == OrEmpty(password)
      ensures recipientEmails == RecipientList(recipients)
      ensures ccEmails == CcList(cc)
      ensures this.highPriorityDuration == highPriorityDuration
    {
      senderEmail := OrEmpty(sender);
      senderPassword := OrEmpty(password);
      recipientEmails := RecipientList(recipients);
      ccEmails := CcList(cc);
      this.highPriorityDuration := highPriorityDuration;
    }

    /**
     * Sends one alert. Returns true iff every guard passed and the SMTP
     * conversation delivered. The message goes To the configured
     * recipients, with a Cc header iff the Cc list is active. Once login
     * succeeded with an active Cc list, the Cc addresses are appended to the
     * configured recipient list itself, so they stay there for later sends.
     */
    method SendEmailAlert(anomalies: seq<EmailAnomaly>, detectionTime: Option<int>, now: int, smtp: SmtpOutcome)
      returns (sent: bool, message: Option<Message>)
      modifies this
      ensures message.Some? <==> Refused(anomalies, senderEmail, senderPassword, old(recipientEmails)).None?
      ensures sent <==> message.Some? && smtp == Delivered
      ensures message.Some? ==>
        && message.value.count == |anomalies|
        && message.value.from == senderEmail
        && message.value.to == Join(old(recipientEmails), ", ")
        && (message.value.cc.Some? <==> CcActive(ccEmails))
        && (message.value.cc.Some? ==> message.value.cc.value == Join(ccEmails, ", "))
        && message.value.body.highPriority == HighPriority(anomalies, highPriorityDuration)
        && message.value.body.detectionTime == (if detectionTime.Some? then detectionTime.value else now)
        && |message.value.body.cards| == |anomalies|
        && message.value.body.total == |anomalies|
        && (forall i :: 0 <= i < |anomalies| ==>
              message.value.body.cards[i].number == i + 1 && message.value.body.cards[i].anomaly == anomalies[i]
              && (message.value.body.cards[i].highPriority <==> anomalies[i].durationMin >= highPriorityDuration))
      ensures recipientEmails ==
        if message.Some? && smtp != FailsBeforeLogin && CcActive(ccEmails) then old(recipientEmails) + ccEmails
        else old(recipientEmails)
    {
      message := None;
      if anomalies == [] {
        return false, None;
      }
      if senderEmail == "" || senderPassword == "" {
        return false, None;
      }
      if recipientEmails == [] || recipientEmails == [""] {
        return false, None;
      }
      var time := if detectionTime.Some? then detectionTime.value else now;
      var cc: Option<string> := None;
      if ccEmails != [] && ccEmails != [""] {
        cc := Some(Join(ccEmails, ", "));
      }
      var body := CreateEmailBody(anomalies, time, highPriorityDuration);
      message := Some(Message(|anomalies|, senderEmail, Join(recipientEmails, ", "), cc, body));
      if smtp == FailsBeforeLogin {
        return false, message;
      }
      if ccEmails != [] && ccEmails != [""] {
        recipientEmails := recipientEmails + ccEmails;
      }
      sent := smtp == Delivered;
    }
  }

  /**
   * The recipient list never loses an address: after a send that got past
   * login with an active Cc list the next guard still passes, and the next
   * To header names the Cc addresses too.
   */
  lemma GrownRecipientsStillPass(recipients: seq<string>, cc: seq<string>)
    requires recipients != [] && recipients != [""]
    requires CcActive(cc)
    ensures var grown := recipients + cc;
      && grown != [] && grown != [""]
      && grown[..|recipients|] == recipients
      && Join(grown, ", ") == Join(recipients, ", ") + ", " + Join(cc, ", ")
  {
    JoinAppend(recipients, cc, ", ");
  }
}
