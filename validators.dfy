/**
 * The FluentValidation rules the web layer applies before calling the store
 * (projects/sfa/wiki/Program.cs:1235-1282). Each validator is a function from
 * the input to the error messages it reports, in the order its rules are
 * declared; an empty list means the input is valid. `NotEmpty` on a string
 * fails when the string is blank (empty or white space only).
 */
module Validators {
  import opened Records
  import opened Text

  const HomePageName := "home-page"

  const NameRequired := "Name is required"
  const ContentRequired := "Content is required"
  const UsernameRequired := "Username is required"
  const PasswordRequired := "Password is required"
  const PasswordTooShort := "Password must be at least 8 characters long"
  const ConfirmRequired := "Confirm Password is required"
  const PasswordsDiffer := "Passwords do not match"

  const MinPasswordLength := 8

  function KeepHomeName(homePageName: string): string {
    "You cannot modify home page name. Please keep it " + homePageName
  }

  /**
   * `PageInputValidator(pageName, homePageName)`: the name and the content
   * must not be blank, and when the page being edited is the home page
   * (route name equal to the home page name, ignoring case) the submitted name
   * must be exactly the home page name.
   */
  function PageInputErrors(input: PageInput, pageName: string, homePageName: string): (errors: seq<string>)
    ensures errors == [] <==>
      && !IsBlank(input.name)
      && !IsBlank(input.content)
      && (EqualsIgnoreCase(pageName, homePageName) ==> input.name == homePageName)
    ensures NameRequired in errors <==> IsBlank(input.name)
    ensures ContentRequired in errors <==> IsBlank(input.content)
    ensures KeepHomeName(homePageName) in errors <==>
      EqualsIgnoreCase(pageName, homePageName) && input.name != homePageName
  {
    (if IsBlank(input.name) then [NameRequired] else [])
    + (if EqualsIgnoreCase(pageName, homePageName) && input.name != homePageName then [KeepHomeName(homePageName)] else [])
    + (if IsBlank(input.content) then [ContentRequired] else [])
  }

  /**
   * `LoginInputValidator`: a non-blank user name, and a password that is not
   * blank and has at least eight characters; both password rules run, so an
   * empty password reports both messages.
   */
  function LoginInputErrors(input: LoginInput): (errors: seq<string>)
    ensures errors == [] <==> !IsBlank(input.name) && !IsBlank(input.password) && |input.password| >= MinPasswordLength
    ensures UsernameRequired in errors <==> IsBlank(input.name)
    ensures PasswordRequired in errors <==> IsBlank(input.password)
    ensures PasswordTooShort in errors <==> |input.password| < MinPasswordLength
  {
    (if IsBlank(input.name) then [UsernameRequired] else [])
    + (if IsBlank(input.password) then [PasswordRequired] else [])
    + (if |input.password| < MinPasswordLength then [PasswordTooShort] else [])
  }

  /**
   * `RegisterInputValidator`: a non-blank user name; a password that is not
   * blank and, only then (`CascadeMode.Stop`), has at least eight characters; a
   * non-blank confirmation; and, when neither password is empty, the two must
   * be equal.
   */
  function RegisterInputErrors(input: RegisterInput): (errors: seq<string>)
    ensures errors == [] <==>
      && !IsBlank(input.name)
      && !IsBlank(input.password) && |input.password| >= MinPasswordLength
      && !IsBlank(input.confirmPassword)
      && input.password == input.confirmPassword
    ensures UsernameRequired in errors <==> IsBlank(input.name)
    ensures PasswordRequired in errors <==> IsBlank(input.password)
    ensures PasswordTooShort in errors <==> !IsBlank(input.password) && |input.password| < MinPasswordLength
    ensures ConfirmRequired in errors <==> IsBlank(input.confirmPassword)
    ensures PasswordsDiffer in errors <==>
      input.password != [] && input.confirmPassword != [] && input.password != input.confirmPassword
  {
    (if IsBlank(input.name) then [UsernameRequired] else [])
    + (if IsBlank(input.password) then [PasswordRequired]
       else if |input.password| < MinPasswordLength then [PasswordTooShort]
       else [])
    + (if IsBlank(input.confirmPassword) then [ConfirmRequired] else [])
    + (if input.password != [] && input.confirmPassword != [] && input.password != input.confirmPassword
       then [PasswordsDiffer] else [])
  }
}
