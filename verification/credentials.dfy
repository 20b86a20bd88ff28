/** The administrator credential of serveur.js: a fixed username from the
    environment and a password kept in the `.admin-password` file, falling
    back to the environment and then to a built-in default. */
module Credentials {
  import opened Wrappers
  import opened Text

  /** The process environment variables the server reads. */
  datatype Env = Env(
    adminUsername: Option<string>,
    adminPassword: Option<string>,
    gmailUser: Option<string>,
    gmailPass: Option<string>)

  const DefaultUsername: string := "admin"
  const DefaultPassword: string := "1234"

  /** Contents of `.admin-password`; `None` when the file does not exist. */
  type PasswordFile = Option<string>

  /** `ADMIN_USERNAME`: the environment value if non-empty, else "admin". */
  function AdminUsername(env: Env): (r: string)
    ensures Filled(env.adminUsername) ==> r == env.adminUsername.value
    ensures !Filled(env.adminUsername) ==> r == DefaultUsername
    ensures r != ""
  {
    OrElse(env.adminUsername, DefaultUsername)
  }

  /** `getAdminPassword`: the trimmed file contents when the file exists,
      otherwise `ADMIN_PASSWORD` if non-empty, otherwise "1234". */
  function GetAdminPassword(file: PasswordFile, env: Env): (r: string)
    ensures file.Some? ==> r == Trim(file.value)
    ensures file.None? && Filled(env.adminPassword) ==> r == env.adminPassword.value
    ensures file.None? && !Filled(env.adminPassword) ==> r == DefaultPassword
  {
    match file
    case Some(contents) => Trim(contents)
    case None => OrElse(env.adminPassword, DefaultPassword)
  }

  /** `setAdminPassword`: the file now holds exactly the new password,
      untrimmed. */
  function SetAdminPassword(newPassword: string): (file: PasswordFile)
    ensures file.Some? && file.value == newPassword
  {
    Some(newPassword)
  }

  /** After a write, every later read returns the trimmed new password,
      whatever the environment says. */
  lemma SetThenGet(newPassword: string, env: Env)
    ensures GetAdminPassword(SetAdminPassword(newPassword), env) == Trim(newPassword)
  {
  }

  /** A password read from the file never starts or ends with white space,
      so writing back what was read does not change later reads. */
  lemma GetFromFileIsStable(contents: string, env: Env)
    ensures var p := GetAdminPassword(Some(contents), env);
      GetAdminPassword(SetAdminPassword(p), env) == p
  {
    TrimIdempotent(contents);
  }
}
