/** The Discord alert: whether a reading triggers one webhook post, and the
    log of posts attempted. */
module Alert {

  /** Readings strictly above 30 degrees raise an alert. */
  const Threshold: real := 30.0

  /** `sendDiscordNotification` goes as far as the post exactly when a
      webhook URL is configured (an empty one is falsy) and the temperature
      is above the threshold. */
  predicate ShouldAlert(webhookUrl: string, temperature: real)
  {
    webhookUrl != "" && temperature > Threshold
  }

  /** 30.0 is not above the threshold, 30.1 is, and without a webhook URL
      nothing is ever posted. */
  lemma ThresholdBoundary(webhookUrl: string)
    ensures !ShouldAlert(webhookUrl, 30.0)
    ensures ShouldAlert(webhookUrl, 30.1) <==> webhookUrl != ""
    ensures forall t: real :: !ShouldAlert("", t)
  {
  }

  /** One `axios.post` to the webhook, and whether it got through. */
  datatype Attempt = Attempt(temperature: real, humidity: real, delivered: bool)

  /** The posts a run of evaluations attempts: one for each evaluation that
      passes the gate, in order, with no deduplication. */
  function Attempted(webhookUrl: string, evals: seq<Attempt>): (posts: seq<Attempt>)
    ensures |posts| <= |evals|
  {
    if evals == [] then []
    else
      (if ShouldAlert(webhookUrl, evals[0].temperature) then [evals[0]] else []) +
      Attempted(webhookUrl, evals[1..])
  }

  /** Evaluating one more reading adds its post, if any, after the earlier
      ones: this is what one call of `Notify` does to the log. */
  lemma {:induction false} AttemptedSnoc(webhookUrl: string, evals: seq<Attempt>, e: Attempt)
    ensures Attempted(webhookUrl, evals + [e]) ==
      Attempted(webhookUrl, evals) + (if ShouldAlert(webhookUrl, e.temperature) then [e] else [])
  {
    if evals == [] {
      assert evals + [e] == [e];
    } else {
      assert (evals + [e])[0] == evals[0] && (evals + [e])[1..] == evals[1..] + [e];
      AttemptedSnoc(webhookUrl, evals[1..], e);
    }
  }

  /** No deduplication or cooldown: when every reading of a run is above the
      threshold and a webhook is set, every one of them, repeated values
      included, gets its own post. */
  lemma {:induction false} EveryHotReadingPosts(webhookUrl: string, evals: seq<Attempt>)
    requires webhookUrl != ""
    requires forall i :: 0 <= i < |evals| ==> evals[i].temperature > Threshold
    ensures Attempted(webhookUrl, evals) == evals
  {
    if evals != [] {
      EveryHotReadingPosts(webhookUrl, evals[1..]);
    }
  }

  /** A run with no reading above the threshold posts nothing. */
  lemma {:induction false} NoHotReadingNoPost(webhookUrl: string, evals: seq<Attempt>)
    requires forall i :: 0 <= i < |evals| ==> evals[i].temperature <= Threshold
    ensures Attempted(webhookUrl, evals) == []
  {
    if evals != [] {
      NoHotReadingNoPost(webhookUrl, evals[1..]);
    }
  }

  class Notifier {
    const webhookUrl: string
    var attempts: seq<Attempt>
    /** Every reading evaluated so far, with how its post would fare. */
    ghost var evals: seq<Attempt>

    /** The log holds exactly the posts the evaluations so far attempt, so
        by `EveryHotReadingPosts` repeated hot readings each post. */
    ghost predicate Valid()
      reads this
    {
      attempts == Attempted(webhookUrl, evals)
    }

    constructor (webhookUrl: string)
      ensures Valid()
      ensures this.webhookUrl == webhookUrl && attempts == [] && evals == []
    {
      this.webhookUrl := webhookUrl;
      attempts := [];
      evals := [];
    }

    /** Evaluates one reading: at most one post, never retried; a failed post
        (`delivered` false) is logged and swallowed, so nothing is returned. */
    method Notify(temperature: real, humidity: real, delivered: bool)
      requires Valid()
      modifies this
      ensures Valid()
      ensures evals == old(evals) + [Attempt(temperature, humidity, delivered)]
      ensures attempts == old(attempts) +
        (if ShouldAlert(webhookUrl, temperature) then [Attempt(temperature, humidity, delivered)] else [])
    {
      AttemptedSnoc(webhookUrl, evals, Attempt(temperature, humidity, delivered));
      evals := evals + [Attempt(temperature, humidity, delivered)];
      if webhookUrl == "" {
        return;
      }
      if temperature <= Threshold {
        return;
      }
      attempts := attempts + [Attempt(temperature, humidity, delivered)];
    }
  }
}
