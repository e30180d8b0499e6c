/**
 * The captured result of one shell command run on the device through `adb`.
 * The program only ever looks at the success flag and the standard output;
 * the standard error text is printed and otherwise ignored.
 */
module Shell {

  datatype CommandResult = CommandResult(success: bool, stdout: string)

}
