/**
  The `Home` page of the username re-registration form: the three ordered
  checks its submit handler runs on the secret key and the username, and
  the error message the page keeps as state.
*/
module Home {
  import opened StringSplit

  datatype Option<T> = None | Some(value: T)

  const SecretKeyRequired: string := "Secret key is required"
  const SecretKeyWordCount: string := "Secret key must be 12 words"
  const UsernameRequired: string := "Username is required"

  /** The number of pieces `secretKey.split(" ")` must give. */
  const SecretKeyWords: nat := 12

  /** The error message a submit leaves, or `None` when every check passes.
      The checks run in order and the first that fails decides the message:
      an empty key, a key whose split on single spaces does not give twelve
      pieces, an empty username. The contract restates the word-count test
      as a count of space characters (eleven of them), with no trimming. */
  function Validate(secretKey: string, username: string): (r: Option<string>)
    ensures secretKey == [] ==> r == Some(SecretKeyRequired)
    ensures secretKey != [] && Count(secretKey, ' ') != SecretKeyWords - 1 ==> r == Some(SecretKeyWordCount)
    ensures secretKey != [] && Count(secretKey, ' ') == SecretKeyWords - 1 ==>
      r == if username == [] then Some(UsernameRequired) else None
  {
    SplitLength(secretKey, ' ');
    if secretKey == [] then Some(SecretKeyRequired)
    else if |Split(secretKey, ' ')| != SecretKeyWords then Some(SecretKeyWordCount)
    else if username == [] then Some(UsernameRequired)
    else None
  }

  /** The page's state: the two form fields and the error message shown
      under them. The fields are public, as the page's change handlers
      overwrite them directly. */
  class HomeForm {
    var secretKey: string
    var username: string
    var errorMessage: Option<string>

    /** Both fields start empty and no error is shown. */
    constructor ()
      ensures secretKey == [] && username == [] && errorMessage == None
    {
      secretKey := [];
      username := [];
      errorMessage := None;
    }

    /** The submit handler: clear the message, then stop at the first
        failing check and record its message. */
    method Submit()
      modifies this`errorMessage
      ensures errorMessage == Validate(secretKey, username)
      ensures secretKey == old(secretKey) && username == old(username)
    {
      errorMessage := None;

      if secretKey == [] {
        errorMessage := Some(SecretKeyRequired);
        return;
      }
      if |Split(secretKey, ' ')| != SecretKeyWords {
        errorMessage := Some(SecretKeyWordCount);
        return;
      }

      if username == [] {
        errorMessage := Some(UsernameRequired);
        return;
      }
    }
  }
}
