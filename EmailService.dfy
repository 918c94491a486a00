/** The mail sender. Delivery goes to an external HTTP service that is not
    part of this model; whether it succeeds is the parameter `delivered`. The
    sender catches every failure and only reports it, so a send never throws.
    Of the HTML body only the code it shows is kept. */
module EmailService {

  datatype Mail = Mail(to: string, subject: string, code: string)

  class Mailer {
    /** Every message handed to the sender, in order. */
    var sent: seq<Mail>

    constructor()
      ensures sent == []
    {
      sent := [];
    }

    /** `SendEmailAsync`: records the attempt and answers whether the service
        accepted it. */
    method SendEmail(to: string, subject: string, code: string, delivered: bool) returns (ok: bool)
      modifies this
      ensures sent == old(sent) + [Mail(to, subject, code)]
      ensures ok == delivered
    {
      sent := sent + [Mail(to, subject, code)];
      ok := delivered;
    }
  }
}
