/** The request handlers of app.py as methods on one application object that
    holds the `User` table, one client's session (`logged_in`, `username`),
    the upload folder and the log of requests sent to the classification
    service. Flask rendering, redirects and flash messages become `Response`
    values; the random upload token and the service's answer are parameters. */
module WebApp {
  import opened Wrappers
  import opened FileNames
  import opened CredentialStore

  /** Redirect targets, by route function name. */
  datatype Route = HomeRoute | LoginRoute | RegisterRoute | MainRoute

  /** The flash messages the handlers emit, one constructor per message. */
  datatype Notice =
    | EmptyFields | UsernameTaken | Registered
    | LoginOk | InvalidCredentials | LoggedOut
    | AlreadyLoggedIn | PleaseLogIn | MustLogInToUpload
    | NoFilePart | NoSelectedFile | DisallowedType
    | ApiCallFailed | UnexpectedError

  datatype Response =
    | Redirect(to: Route, notice: Notice)
    | RenderLogin
    | RenderRegister
    | RenderMain(username: Option<string>)
    | RenderClassify(classification: string, imageFilename: string,
                     loggedIn: Option<bool>, username: Option<string>)

  /** The `file` part of a multipart upload. */
  datatype FilePart = FilePart(filename: string, content: seq<bv8>)

  /** One request to the classification service: the fixed prompt, the MIME
      type and the image bytes (sent base64-encoded). */
  datatype ApiRequest = ApiRequest(prompt: string, mimeType: string, data: seq<bv8>)

  /** What came back from the classification service: the text at
      `candidates[0].content.parts[0].text`, a `requests` failure (network
      error or non-2xx status), or a reply without that path. */
  datatype ApiReply = Classified(text: string) | RequestFailed | MalformedReply

  const Prompt: string := "In not more than 6-8 short & to-the point lines, tell what waste category is this image? Classify it as biodegradable, non-biodegradable, e-waste, hazardous, recyclable and others. Also, give a short, friendly explanation and the right and convenient way to dump it for better waste management. If it's recyclable, suggest convincing ideas for recycling it."

  /** Python truthiness of a form field: present and not empty. */
  predicate Present(v: Option<string>) {
    v.Some? && v.value != ""
  }

  /** The four checks of `upload_and_classify`, in order, all pass. */
  predicate UploadAccepted(loggedIn: bool, file: Option<FilePart>) {
    loggedIn && file.Some? && file.value.filename != "" && AllowedFile(file.value.filename)
  }

  class App {
    var users: seq<User>
    var loggedIn: Option<bool>
    var sessionUser: Option<string>
    var uploads: map<string, seq<bv8>>
    var apiCalls: seq<ApiRequest>

    /** Usernames are unique, ids are assigned in insertion order, no stored
        name or password is empty, and the session is either empty or
        logged in as a registered user. */
    ghost predicate Valid()
      reads this
    {
      && UniqueNames(users)
      && (forall i :: 0 <= i < |users| ==>
            users[i].id == i + 1 && users[i].username != "" && users[i].password != "")
      && ((loggedIn.None? && sessionUser.None?)
          || (loggedIn == Some(true) && sessionUser.Some? && HasName(users, sessionUser.value)))
    }

    /** `session.get('logged_in')` is truthy. */
    predicate LoggedIn()
      reads this
    {
      loggedIn == Some(true)
    }

    /** The table as an abstract credential map. */
    ghost function Store(): map<string, string>
      reads this
    {
      Credentials(users)
    }

    constructor ()
      ensures Valid()
      ensures users == [] && loggedIn.None? && sessionUser.None?
      ensures uploads == map[] && apiCalls == []
    {
      users := [];
      loggedIn := None;
      sessionUser := None;
      uploads := map[];
      apiCalls := [];
    }

    /** `login_page`: a logged-in client is sent to the main page. */
    method LoginPage() returns (resp: Response)
      ensures resp == RenderLogin <==> !LoggedIn()
      ensures LoggedIn() ==> resp == Redirect(MainRoute, AlreadyLoggedIn)
    {
      if LoggedIn() {
        resp := Redirect(MainRoute, AlreadyLoggedIn);
      } else {
        resp := RenderLogin;
      }
    }

    /** `register_page`: a logged-in client is sent to the main page. */
    method RegisterPage() returns (resp: Response)
      ensures resp == RenderRegister <==> !LoggedIn()
      ensures LoggedIn() ==> resp == Redirect(MainRoute, AlreadyLoggedIn)
    {
      if LoggedIn() {
        resp := Redirect(MainRoute, AlreadyLoggedIn);
      } else {
        resp := RenderRegister;
      }
    }

    /** `main`: the protected page is rendered only for a logged-in session,
        and then only for a registered user. */
    method MainPage() returns (resp: Response)
      requires Valid()
      ensures resp.RenderMain? <==> LoggedIn()
      ensures !LoggedIn() ==> resp == Redirect(LoginRoute, PleaseLogIn)
      ensures resp.RenderMain? ==>
        (resp.username == sessionUser && resp.username.Some? && HasName(users, resp.username.value))
    {
      if !LoggedIn() {
        resp := Redirect(LoginRoute, PleaseLogIn);
        return;
      }
      resp := RenderMain(sessionUser);
    }

    /** `register_user`: empty fields and taken names leave the table alone;
        otherwise exactly one row is added and the credential map gains
        exactly the new pair. */
    method RegisterUser(username: Option<string>, password: Option<string>) returns (resp: Response)
      requires Valid()
      modifies this`users
      ensures Valid()
      ensures !Present(username) || !Present(password) ==>
        users == old(users) && resp == Redirect(RegisterRoute, EmptyFields)
      ensures Present(username) && Present(password) && HasName(old(users), username.value) ==>
        users == old(users) && resp == Redirect(RegisterRoute, UsernameTaken)
      ensures Present(username) && Present(password) && !HasName(old(users), username.value) ==>
        && users == old(users) + [User(|old(users)| + 1, username.value, password.value)]
        && username.value !in old(Store())
        && Store() == old(Store())[username.value := password.value]
        && resp == Redirect(LoginRoute, Registered)
    {
      if !Present(username) || !Present(password) {
        resp := Redirect(RegisterRoute, EmptyFields);
        return;
      }
      var existing := FindByName(users, username);
      if existing.Some? {
        resp := Redirect(RegisterRoute, UsernameTaken);
        return;
      }
      var row := User(|users| + 1, username.value, password.value);
      InsertNew(users, row);
      if sessionUser.Some? && HasName(users, sessionUser.value) {
        HasNameGrows(users, row, sessionUser.value);
      }
      users := users + [row];
      resp := Redirect(LoginRoute, Registered);
    }

    /** `submit`: the session is set exactly when the table holds the
        submitted pair; otherwise it is left as it was. */
    method Submit(username: Option<string>, password: Option<string>) returns (resp: Response)
      requires Valid()
      modifies this`loggedIn, this`sessionUser
      ensures Valid()
      ensures var ok := username.Some? && password.Some?
                        && HasCredential(users, username.value, password.value);
        && (ok ==> loggedIn == Some(true) && sessionUser == username
                   && resp == Redirect(MainRoute, LoginOk))
        && (!ok ==> loggedIn == old(loggedIn) && sessionUser == old(sessionUser)
                    && resp == Redirect(LoginRoute, InvalidCredentials))
      ensures resp == Redirect(MainRoute, LoginOk) <==>
        username.Some? && password.Some?
        && username.value in Store() && Store()[username.value] == password.value
    {
      if username.Some? && password.Some? {
        CredentialsAgree(users, username.value, password.value);
      }
      var user := FindCredential(users, username, password);
      if user.Some? {
        loggedIn := Some(true);
        sessionUser := Some(user.value.username);
        resp := Redirect(MainRoute, LoginOk);
      } else {
        resp := Redirect(LoginRoute, InvalidCredentials);
      }
    }

    /** `logout`: both session keys are removed, whatever they held. */
    method Logout() returns (resp: Response)
      requires Valid()
      modifies this`loggedIn, this`sessionUser
      ensures Valid()
      ensures loggedIn.None? && sessionUser.None?
      ensures users == old(users)
      ensures resp == Redirect(HomeRoute, LoggedOut)
    {
      loggedIn := None;
      sessionUser := None;
      resp := Redirect(HomeRoute, LoggedOut);
    }

    /** `upload_and_classify`: the login gate, the file part, the file name and
        the extension are checked in that order, and any failing check returns
        before the file is stored or the service is called. Otherwise the file
        is stored under the token plus its original extension and exactly one
        request goes to the service. */
    method UploadAndClassify(file: Option<FilePart>, token: string, reply: ApiReply)
      returns (resp: Response)
      requires Valid()
      modifies this`uploads, this`apiCalls
      ensures Valid()
      ensures !LoggedIn() ==> resp == Redirect(LoginRoute, MustLogInToUpload)
      ensures LoggedIn() && file.None? ==> resp == Redirect(MainRoute, NoFilePart)
      ensures LoggedIn() && file.Some? && file.value.filename == "" ==>
        resp == Redirect(MainRoute, NoSelectedFile)
      ensures LoggedIn() && file.Some? && file.value.filename != ""
              && !AllowedFile(file.value.filename) ==>
        resp == Redirect(MainRoute, DisallowedType)
      ensures !UploadAccepted(LoggedIn(), file) ==>
        uploads == old(uploads) && apiCalls == old(apiCalls)
      ensures UploadAccepted(LoggedIn(), file) ==>
        var f := file.value;
        var name := StoredName(token, f.filename);
        && uploads == old(uploads)[name := f.content]
        && apiCalls == old(apiCalls) + [ApiRequest(Prompt, MimeType(f.filename), f.content)]
        && resp == match reply
                   case Classified(text) => RenderClassify(text, name, loggedIn, sessionUser)
                   case RequestFailed => Redirect(MainRoute, ApiCallFailed)
                   case MalformedReply => Redirect(MainRoute, UnexpectedError)
    {
      if !LoggedIn() {
        resp := Redirect(LoginRoute, MustLogInToUpload);
        return;
      }
      if file.None? {
        resp := Redirect(MainRoute, NoFilePart);
        return;
      }
      var f := file.value;
      if f.filename == "" {
        resp := Redirect(MainRoute, NoSelectedFile);
        return;
      }
      if !AllowedFile(f.filename) {
        resp := Redirect(MainRoute, DisallowedType);
        return;
      }
      var name := StoredName(token, f.filename);
      uploads := uploads[name := f.content];
      apiCalls := apiCalls + [ApiRequest(Prompt, MimeType(f.filename), f.content)];
      match reply {
        case Classified(text) =>
          resp := RenderClassify(text, name, loggedIn, sessionUser);
        case RequestFailed =>
          resp := Redirect(MainRoute, ApiCallFailed);
        case MalformedReply =>
          resp := Redirect(MainRoute, UnexpectedError);
      }
    }
  }

  /** A fresh application: registering a new user, logging in with the same
      pair, reaching the main page, logging out, and being turned away from
      the main page again. */
  method RegisterLoginLogout(username: string, password: string)
    returns (registered: Response, login: Response, page: Response, out: Response, after: Response)
    requires username != "" && password != ""
    ensures registered == Redirect(LoginRoute, Registered)
    ensures login == Redirect(MainRoute, LoginOk)
    ensures page == RenderMain(Some(username))
    ensures out == Redirect(HomeRoute, LoggedOut)
    ensures after == Redirect(LoginRoute, PleaseLogIn)
  {
    var app := new App();
    registered := app.RegisterUser(Some(username), Some(password));
    RegisteredCanLogIn([], app.users[0]);
    login := app.Submit(Some(username), Some(password));
    page := app.MainPage();
    out := app.Logout();
    after := app.MainPage();
  }
}
