/**
  Properties of the submit-time checks of the `Home` page that relate
  several inputs or several calls: how spaces alone decide the word count,
  which keys pass, and which message hides which.
*/
module HomeProperties {
  import opened StringSplit
  import opened Home

  /** A key made of `n` space characters and nothing else. */
  function Spaces(n: nat): (s: string)
    ensures |s| == n
  {
    seq(n, _ => ' ')
  }

  lemma {:induction false} CountSpaces(n: nat)
    ensures Count(Spaces(n), ' ') == n
  {
    if n > 0 {
      assert Spaces(n)[1..] == Spaces(n - 1);
      CountSpaces(n - 1);
    }
  }

  /** A key of spaces only is not "required": it is judged by its count of
      spaces alone, and eleven spaces pass the word-count check. */
  lemma SpacesOnlyKey(n: nat, username: string)
    ensures Validate(Spaces(n), username) ==
      if n == 0 then Some(SecretKeyRequired)
      else if n != SecretKeyWords - 1 then Some(SecretKeyWordCount)
      else if username == [] then Some(UsernameRequired)
      else None
  {
    CountSpaces(n);
  }

  /** Spaces are never collapsed or trimmed: one more space anywhere in a key
      that passes the word-count check (doubling a separator, or a leading or
      trailing space) makes it fail that check. */
  lemma ExtraSpaceRejected(secretKey: string, i: nat, username: string)
    requires secretKey != [] && Count(secretKey, ' ') == SecretKeyWords - 1
    requires i <= |secretKey|
    ensures Validate(secretKey[..i] + [' '] + secretKey[i..], username) == Some(SecretKeyWordCount)
  {
    CountInsert(secretKey, i, ' ');
  }

  /** Any twelve space-free words (empty ones included) joined by single
      spaces pass both secret-key checks; only the username is then looked at. */
  lemma TwelveWordsPassKeyChecks(words: seq<string>, username: string)
    requires |words| == SecretKeyWords && SeparatorFree(words, ' ')
    ensures Validate(Join(words, ' '), username) ==
      if username == [] then Some(UsernameRequired) else None
  {
    JoinCount(words, ' ');
  }

  /** Conversely, a key that passes is exactly twelve space-free words joined
      by single spaces: the pieces `split(" ")` returns. */
  lemma PassingKeyIsTwelveWords(secretKey: string, username: string)
    requires Validate(secretKey, username) == None
    ensures |Split(secretKey, ' ')| == SecretKeyWords
    ensures SeparatorFree(Split(secretKey, ' '), ' ')
    ensures Join(Split(secretKey, ' '), ' ') == secretKey
  {
    SplitLength(secretKey, ' ');
    SplitSeparatorFree(secretKey, ' ');
    JoinSplit(secretKey, ' ');
  }

  /** A failing secret key hides the username: its message is the same
      whatever the username is. */
  lemma KeyErrorHidesUsername(secretKey: string, username: string, other: string)
    requires Validate(secretKey, username) in {Some(SecretKeyRequired), Some(SecretKeyWordCount)}
    ensures Validate(secretKey, other) == Validate(secretKey, username)
  {
  }

  /** A username made of spaces only is not empty and passes. */
  lemma BlankUsernamePasses(words: seq<string>, n: nat)
    requires |words| == SecretKeyWords && SeparatorFree(words, ' ')
    requires n > 0
    ensures Validate(Join(words, ' '), Spaces(n)) == None
  {
    TwelveWordsPassKeyChecks(words, Spaces(n));
  }

  /** A key of twelve words separated by single spaces and a two-letter
      username pass: the username's length is never checked. */
  lemma TwelveWordExample()
    ensures Validate(Join(["one", "two", "three", "four", "five", "six", "seven", "eight", "nine", "ten", "eleven", "twelve"], ' '), "AB") == None
  {
    var words := ["one", "two", "three", "four", "five", "six", "seven", "eight", "nine", "ten", "eleven", "twelve"];
    assert SeparatorFree(words, ' ');
    TwelveWordsPassKeyChecks(words, "AB");
  }

  /** An eleven-word key fails the word-count check, and the username is
      never looked at. */
  lemma ElevenWordExample()
    ensures Validate(Join(["one", "two", "three", "four", "five", "six", "seven", "eight", "nine", "ten", "eleven"], ' '), "valid_user1") == Some(SecretKeyWordCount)
  {
    var words := ["one", "two", "three", "four", "five", "six", "seven", "eight", "nine", "ten", "eleven"];
    assert SeparatorFree(words, ' ');
    JoinCount(words, ' ');
    assert Join(words, ' ') != [] by {
      assert |Join(words, ' ')| >= Count(Join(words, ' '), ' ') == 10;
    }
  }
}
