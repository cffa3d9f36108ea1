/**
 * The bot-commit classifier: a commit is automation noise when its lower-cased
 * "author email subject" text contains any of a fixed list of signals. This is
 * a heuristic; a human whose name happens to contain a signal is flagged too.
 */
module Classifier {
  import opened Text

  /** The signals, all lower case, in the order they are tried. */
  const BotSignals: seq<string> := [
    "[bot]",
    "github-actions",
    "actions@github.com",
    "github classroom",
    "classroom[bot]",
    "dependabot",
    "autograding",
    "workflow",
    "grader",
    "autograder"
  ]

  /** Some signal of `signals` is a substring of `hay`, trying the signals in order. */
  function SomeSignalIn(signals: seq<string>, hay: string): bool {
    if |signals| == 0 then false
    else Includes(hay, signals[0]) || SomeSignalIn(signals[1..], hay)
  }

  /** Trying the signals in order finds one exactly when some signal of the list occurs. */
  lemma {:induction false} SomeSignalInIff(signals: seq<string>, hay: string)
    ensures SomeSignalIn(signals, hay) <==> exists s :: s in signals && Occurs(s, hay)
  {
    if |signals| > 0 {
      IncludesIffOccurs(hay, signals[0]);
      SomeSignalInIff(signals[1..], hay);
      assert signals == [signals[0]] + signals[1..];
    }
  }

  /** `looksLikeBotCommit(hayLower)`: some bot signal occurs in the (already lower-cased) text. */
  function LooksLikeBotCommit(hayLower: string): bool {
    SomeSignalIn(BotSignals, hayLower)
  }

  /** The classifier flags a text exactly when one of the ten signals is a substring of it. */
  lemma {:induction false} LooksLikeBotCommitIff(hayLower: string)
    ensures LooksLikeBotCommit(hayLower) <==> exists s :: s in BotSignals && Occurs(s, hayLower)
  {
    SomeSignalInIff(BotSignals, hayLower);
  }

  /** The text the scan classifies: author, email and subject joined by spaces, lower-cased. */
  function BotHaystack(author: string, email: string, subject: string): string {
    ToLower(author + " " + email + " " + subject)
  }

  predicate IsBotCommit(author: string, email: string, subject: string) {
    LooksLikeBotCommit(BotHaystack(author, email, subject))
  }

  /** Lower-casing the joined text is joining the lower-cased fields. */
  lemma {:induction false} HaystackOfLowered(author: string, email: string, subject: string)
    ensures BotHaystack(author, email, subject) == ToLower(author) + " " + ToLower(email) + " " + ToLower(subject)
  {
    assert ToLower(" ") == " ";
    ToLowerConcat(author + " " + email + " ", subject);
    ToLowerConcat(author + " " + email, " ");
    ToLowerConcat(author + " ", email);
    ToLowerConcat(author, " ");
  }

  /** A substring of one of three fields is a substring of the fields joined by spaces. */
  lemma {:induction false} OccursInJoined(s: string, a: string, b: string, c: string)
    requires Occurs(s, a) || Occurs(s, b) || Occurs(s, c)
    ensures Occurs(s, a + " " + b + " " + c)
  {
    if Occurs(s, a) {
      assert a + " " + b + " " + c == a + (" " + b + " " + c);
      OccursInConcat(s, a, " " + b + " " + c);
    } else if Occurs(s, c) {
      OccursInConcat(s, c, a + " " + b + " ");
    } else {
      assert a + " " + b + " " + c == (a + " ") + (b + (" " + c));
      OccursInConcat(s, b, " " + c);
      OccursInConcat(s, b + (" " + c), a + " ");
    }
  }

  /** A signal in any one field, in any letter case, flags the commit. */
  lemma {:induction false} SignalInFieldFlags(author: string, email: string, subject: string, s: string)
    requires s in BotSignals
    requires Occurs(s, ToLower(author)) || Occurs(s, ToLower(email)) || Occurs(s, ToLower(subject))
    ensures IsBotCommit(author, email, subject)
  {
    HaystackOfLowered(author, email, subject);
    OccursInJoined(s, ToLower(author), ToLower(email), ToLower(subject));
    LooksLikeBotCommitIff(BotHaystack(author, email, subject));
  }

  /** Classification ignores letter case: lower-casing the fields first changes nothing. */
  lemma {:induction false} ClassificationIgnoresCase(author: string, email: string, subject: string)
    ensures IsBotCommit(author, email, subject) == IsBotCommit(ToLower(author), ToLower(email), ToLower(subject))
  {
    HaystackOfLowered(author, email, subject);
    HaystackOfLowered(ToLower(author), ToLower(email), ToLower(subject));
    ToLowerIdempotent(author);
    ToLowerIdempotent(email);
    ToLowerIdempotent(subject);
  }

  /** A human author whose name ends in "-GRADER" is classified as a bot: the heuristic's documented false positive. */
  lemma {:induction false} GraderNamedAuthorIsFlagged(name: string, email: string, subject: string)
    ensures IsBotCommit(name + "-GRADER", email, subject)
  {
    ToLowerConcat(name, "-GRADER");
    var la := ToLower(name + "-GRADER");
    assert ToLower("-GRADER") == "-grader";
    assert la[|name| + 1..] == "grader";
    SignalInFieldFlags(name + "-GRADER", email, subject, "grader");
  }

  /** Every author account whose name ends in "[bot]" is flagged, whatever its e-mail and subject. */
  lemma {:induction false} BotAccountIsFlagged(name: string, email: string, subject: string)
    ensures IsBotCommit(name + "[bot]", email, subject)
  {
    ToLowerConcat(name, "[bot]");
    var la := ToLower(name + "[bot]");
    assert ToLower("[bot]") == "[bot]";
    assert la[|name|..] == "[bot]";
    SignalInFieldFlags(name + "[bot]", email, subject, "[bot]");
  }
}
