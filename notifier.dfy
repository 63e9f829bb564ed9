/**
 * The credential guard of `send_email` (monitor.py). The process environment
 * is a map from variable names to values; the SMTP exchange itself
 * (STARTTLS, login, send, quit) is outside the model and enters only as the
 * boolean outcome `delivered`, false whenever it raised.
 */
module Notifier {
  import opened Wrappers

  type Environment = map<string, string>

  const SenderVariable := "EMAIL_ADDRESS"
  const PasswordVariable := "EMAIL_PASSWORD"
  const RecipientVariable := "TO_EMAIL"

  /** The addresses and secret a message is sent with. */
  datatype Envelope = Envelope(sender: string, password: string, recipient: string)

  /** Python truthiness of `os.environ.get(name)`: set and not empty. */
  predicate IsSet(env: Environment, name: string) {
    name in env && env[name] != ""
  }

  /** The envelope, or `None` when the sender or the password is missing or
      empty. The recipient falls back to the sender only when `TO_EMAIL` is
      not set at all; a `TO_EMAIL` set to "" is kept as it is. */
  function Credentials(env: Environment): (r: Option<Envelope>)
    ensures r.Some? <==> IsSet(env, SenderVariable) && IsSet(env, PasswordVariable)
    ensures r.Some? ==> r.value.sender == env[SenderVariable] && r.value.password == env[PasswordVariable]
    ensures r.Some? && RecipientVariable !in env ==> r.value.recipient == r.value.sender
    ensures r.Some? && RecipientVariable in env ==> r.value.recipient == env[RecipientVariable]
  {
    if !IsSet(env, SenderVariable) || !IsSet(env, PasswordVariable) then None
    else
      var sender := env[SenderVariable];
      var recipient := if RecipientVariable in env then env[RecipientVariable] else sender;
      Some(Envelope(sender, env[PasswordVariable], recipient))
  }

  /** `send_email`: true only when the credentials are configured and the
      transport delivered the message. */
  function SendEmail(env: Environment, delivered: bool): (ok: bool)
    ensures ok ==> delivered
    ensures ok ==> IsSet(env, SenderVariable) && IsSet(env, PasswordVariable)
    ensures delivered && Credentials(env).Some? ==> ok
  {
    Credentials(env).Some? && delivered
  }

  /** Missing or empty credentials make every send fail without reaching
      the transport, whatever it would have done. */
  lemma MissingCredentialsNeverSend(env: Environment)
    requires !IsSet(env, SenderVariable) || !IsSet(env, PasswordVariable)
    ensures !SendEmail(env, true) && !SendEmail(env, false)
  {
  }
}
