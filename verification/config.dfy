/** Client configuration (src/supabase.js): which access key is used, when a
    key is well formed, and when a database client is created at all. */
module Config {
  import opened Js
  import opened Strings

  const PublishablePrefix: string := "sb_publishable_"
  /** Legacy anon keys are JWTs, whose base64 header always begins this way. */
  const LegacyPrefix: string := "eyJ"
  /** Marker of the unedited template URL. */
  const Placeholder: string := "your-project"

  /** The three build-time environment variables; `None` is an unset variable. */
  datatype Env = Env(url: Option<string>, publishableKey: Option<string>, anonKey: Option<string>)

  /** The handle `createClient(url, key)` returns. */
  datatype Client = Client(url: string, key: string)

  /** The key in use: the publishable key when set and non-empty, otherwise the legacy anon key. */
  function ChosenKey(env: Env): (key: Option<string>)
    ensures key == env.publishableKey || key == env.anonKey
    ensures Truthy(key) ==> Truthy(env.publishableKey) || Truthy(env.anonKey)
    ensures Truthy(env.publishableKey) ==> key == env.publishableKey
    ensures !Truthy(env.publishableKey) ==> key == env.anonKey
  {
    if Truthy(env.publishableKey) then env.publishableKey else env.anonKey
  }

  /** A key is valid when it begins with the publishable or the legacy prefix;
      a missing or empty key never is. */
  function IsValidKey(key: Option<string>): (valid: bool)
    ensures !Truthy(key) ==> !valid
    ensures valid <==> (key.Some? &&
      ((exists rest :: key.value == PublishablePrefix + rest) || (exists rest :: key.value == LegacyPrefix + rest)))
  {
    if !Truthy(key) then false
    else
      StartsWithIsPrefix(key.value, PublishablePrefix);
      StartsWithIsPrefix(key.value, LegacyPrefix);
      if StartsWith(key.value, PublishablePrefix) then true
      else if StartsWith(key.value, LegacyPrefix) then true
      else false
  }

  /** Configured exactly when the URL is set, is not the template URL, and the chosen key is valid. */
  function IsConfigured(env: Env): (configured: bool)
    ensures configured <==>
      && env.url.Some? && env.url.value != ""
      && !(exists pre, post :: env.url.value == pre + Placeholder + post)
      && IsValidKey(ChosenKey(env))
  {
    if !Truthy(env.url) then false
    else
      ContainsIsInfix(env.url.value, Placeholder);
      !Contains(env.url.value, Placeholder) && IsValidKey(ChosenKey(env))
  }

  /** The exported client: `null` exactly when the environment is not configured. */
  function MakeClient(env: Env): (client: Option<Client>)
    ensures client.None? <==> !IsConfigured(env)
    ensures client.Some? ==> client.value.url == env.url.value && Some(client.value.key) == ChosenKey(env)
    ensures client.Some? ==> IsValidKey(Some(client.value.key))
  {
    if IsConfigured(env) then Some(Client(env.url.value, ChosenKey(env).value)) else None
  }

  /** A non-empty publishable key shadows the anon key entirely, even when the
      publishable key is malformed and the anon key is well formed. */
  lemma PublishableKeyShadowsAnonKey(env: Env, anonKey: Option<string>)
    requires Truthy(env.publishableKey)
    ensures IsConfigured(env.(anonKey := anonKey)) == IsConfigured(env)
    ensures MakeClient(env.(anonKey := anonKey)) == MakeClient(env)
  {
  }

  /** With no usable publishable key the configuration depends on the anon key alone. */
  lemma AnonKeyIsTheFallback(env: Env)
    requires !Truthy(env.publishableKey)
    ensures IsConfigured(env) == IsConfigured(env.(publishableKey := None))
    ensures IsConfigured(env) ==> MakeClient(env) == Some(Client(env.url.value, env.anonKey.value))
  {
  }
}
