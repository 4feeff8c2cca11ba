/** The outcomes of mutt's interactive prompts, which enter the model as
    parameters of the commands that ask them. */
module Prompt {

  /** What a yes/no/always quadoption prompt returns to its caller:
      MUTT_YES, MUTT_NO, or -1 when the user aborts the prompt. */
  datatype Answer = Yes | No | Abort
}
