/** The mutex keys of slack/client.go: three families in one shared hash. */
module MutexKeys {
  function BotMessageKey(channel: string, timestamp: string): string {
    "bot_message:" + channel + ":" + timestamp
  }

  function SlackMessageKey(id: string): string {
    "send_slack_message:" + id
  }

  function BotmetricsKey(team: string): string {
    "botmetrics:" + team
  }

  /** Keys of different families are never the same field. */
  lemma {:induction false} FamiliesDisjoint(channel: string, timestamp: string, id: string, team: string)
    ensures BotMessageKey(channel, timestamp) != SlackMessageKey(id)
    ensures BotMessageKey(channel, timestamp) != BotmetricsKey(team)
    ensures SlackMessageKey(id) != BotmetricsKey(team)
  {
    assert BotMessageKey(channel, timestamp)[3] == '_' && BotMessageKey(channel, timestamp)[0] == 'b';
    assert BotmetricsKey(team)[3] == 'm' && BotmetricsKey(team)[0] == 'b';
    assert SlackMessageKey(id)[0] == 's';
  }

  lemma {:induction false} CommandsDistinct(id: string, id': string)
    requires SlackMessageKey(id) == SlackMessageKey(id')
    ensures id == id'
  {
    var n := |"send_slack_message:"|;
    assert SlackMessageKey(id)[n..] == id && SlackMessageKey(id')[n..] == id';
  }

  /** One channel ends where a colon inside the other channel stands. */
  ghost predicate Overlap(c: string, t: string, d: string, u: string) {
    |c| < |d| && exists x: string :: d == c + ":" + x && t == x + ":" + u
  }

  lemma {:induction false} SplitAgain(c: string, t: string, d: string, u: string)
    requires c + ":" + t == d + ":" + u && |c| < |d|
    ensures Overlap(c, t, d, u)
  {
    var s, n := c + ":" + t, |c| + 1;
    var x := d[n..];
    assert s[..n] == c + ":" && s[n..] == t;
    assert (d + ":" + u)[..n] == d[..n] && (d + ":" + u)[n..] == x + ":" + u;
    assert d == d[..n] + x;
  }

  /** Exactly when two events share a mutex key: they are the same, or a channel holds the separator. */
  lemma {:induction false} EventsShareKey(c: string, t: string, d: string, u: string)
    ensures BotMessageKey(c, t) == BotMessageKey(d, u) <==>
            (c == d && t == u) || Overlap(c, t, d, u) || Overlap(d, u, c, t)
  {
    var p := "bot_message:";
    assert BotMessageKey(c, t) == p + (c + ":" + t) && BotMessageKey(d, u) == p + (d + ":" + u);
    assert (p + (c + ":" + t))[|p|..] == c + ":" + t && (p + (d + ":" + u))[|p|..] == d + ":" + u;
    if c + ":" + t == d + ":" + u {
      if |c| < |d| {
        SplitAgain(c, t, d, u);
      } else if |d| < |c| {
        SplitAgain(d, u, c, t);
      } else {
        assert (c + ":" + t)[..|c|] == c && (d + ":" + u)[..|c|] == d;
        assert (c + ":" + t)[|c| + 1..] == t && (d + ":" + u)[|c| + 1..] == u;
      }
    } else if Overlap(c, t, d, u) {
      Overlapping(c, t, d, u);
    } else if Overlap(d, u, c, t) {
      Overlapping(d, u, c, t);
    }
  }

  lemma {:induction false} Overlapping(c: string, t: string, d: string, u: string)
    requires Overlap(c, t, d, u)
    ensures c + ":" + t == d + ":" + u
  {
    var x :| d == c + ":" + x && t == x + ":" + u;
    assert c + ":" + t == c + ":" + x + ":" + u;
  }

  /** Slack's timestamps and channel ids hold no colon: then every event has a key of its own. */
  lemma {:induction false} EventsDistinct(c: string, t: string, d: string, u: string)
    requires BotMessageKey(c, t) == BotMessageKey(d, u)
    requires (':' !in c && ':' !in d) || (':' !in t && ':' !in u)
    ensures c == d && t == u
  {
    EventsShareKey(c, t, d, u);
  }

  /** Two events with one key: only one of them would be sent. */
  lemma {:induction false} EventsCollide()
    ensures BotMessageKey("C", "1:2") == BotMessageKey("C:1", "2")
  {
    assert "C" + ":" + "1:2" == "C:1" + ":" + "2";
    EventsShareKey("C", "1:2", "C:1", "2");
    assert "C:1" == "C" + ":" + "1" && "1:2" == "1" + ":" + "2";
    assert Overlap("C", "1:2", "C:1", "2");
  }
}
