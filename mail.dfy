/**
 * The two messages utils/emailService.js sends. Only what each message
 * carries is modelled; the SMTP transport and the HTML template are not.
 */
module Mail {

  datatype Message =
    | Registration(to: string, fullName: string, password: string, regNo: string)
    | PasswordReset(to: string, fullName: string, password: string)
}
