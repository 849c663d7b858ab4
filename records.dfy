/** The record a user keeps: the five text fields of a secret. */
module Records {
  datatype Secret = Secret(description: string, username: string, password: string, email: string, note: string)
}
