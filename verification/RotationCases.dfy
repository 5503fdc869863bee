/** Interleaving against rotation, one amount at a time: the solver decides a shift by a literal, not by a
    variable. The two halves of each amount come first, then the amount as a whole. */
module RotationCases {
  import opened Interleave

  lemma Even1(v: bv64) ensures EvenBits((v << 1) | (v >> 63)) == Rotl32(EvenBits(v >> 1), 1) {}
  lemma Odd1(v: bv64) ensures EvenBits(((v << 1) | (v >> 63)) >> 1) == Rotl32(EvenBits(v), 0) {}
  lemma Turn1(v: bv64) ensures Turns(v, 1) { hide EvenBits, Rotl32; Even1(v); Odd1(v); }
  lemma Even2(v: bv64) ensures EvenBits((v << 2) | (v >> 62)) == Rotl32(EvenBits(v), 1) {}
  lemma Odd2(v: bv64) ensures EvenBits(((v << 2) | (v >> 62)) >> 1) == Rotl32(EvenBits(v >> 1), 1) {}
  lemma Turn2(v: bv64) ensures Turns(v, 2) { hide EvenBits, Rotl32; Even2(v); Odd2(v); }
  lemma Even3(v: bv64) ensures EvenBits((v << 3) | (v >> 61)) == Rotl32(EvenBits(v >> 1), 2) {}
  lemma Odd3(v: bv64) ensures EvenBits(((v << 3) | (v >> 61)) >> 1) == Rotl32(EvenBits(v), 1) {}
  lemma Turn3(v: bv64) ensures Turns(v, 3) { hide EvenBits, Rotl32; Even3(v); Odd3(v); }
  lemma Even4(v: bv64) ensures EvenBits((v << 4) | (v >> 60)) == Rotl32(EvenBits(v), 2) {}
  lemma Odd4(v: bv64) ensures EvenBits(((v << 4) | (v >> 60)) >> 1) == Rotl32(EvenBits(v >> 1), 2) {}
  lemma Turn4(v: bv64) ensures Turns(v, 4) { hide EvenBits, Rotl32; Even4(v); Odd4(v); }
  lemma Even5(v: bv64) ensures EvenBits((v << 5) | (v >> 59)) == Rotl32(EvenBits(v >> 1), 3) {}
  lemma Odd5(v: bv64) ensures EvenBits(((v << 5) | (v >> 59)) >> 1) == Rotl32(EvenBits(v), 2) {}
  lemma Turn5(v: bv64) ensures Turns(v, 5) { hide EvenBits, Rotl32; Even5(v); Odd5(v); }
  lemma Even6(v: bv64) ensures EvenBits((v << 6) | (v >> 58)) == Rotl32(EvenBits(v), 3) {}
  lemma Odd6(v: bv64) ensures EvenBits(((v << 6) | (v >> 58)) >> 1) == Rotl32(EvenBits(v >> 1), 3) {}
  lemma Turn6(v: bv64) ensures Turns(v, 6) { hide EvenBits, Rotl32; Even6(v); Odd6(v); }
  lemma Even7(v: bv64) ensures EvenBits((v << 7) | (v >> 57)) == Rotl32(EvenBits(v >> 1), 4) {}
  lemma Odd7(v: bv64) ensures EvenBits(((v << 7) | (v >> 57)) >> 1) == Rotl32(EvenBits(v), 3) {}
  lemma Turn7(v: bv64) ensures Turns(v, 7) { hide EvenBits, Rotl32; Even7(v); Odd7(v); }
  lemma Even8(v: bv64) ensures EvenBits((v << 8) | (v >> 56)) == Rotl32(EvenBits(v), 4) {}
  lemma Odd8(v: bv64) ensures EvenBits(((v << 8) | (v >> 56)) >> 1) == Rotl32(EvenBits(v >> 1), 4) {}
  lemma Turn8(v: bv64) ensures Turns(v, 8) { hide EvenBits, Rotl32; Even8(v); Odd8(v); }
  lemma Even9(v: bv64) ensures EvenBits((v << 9) | (v >> 55)) == Rotl32(EvenBits(v >> 1), 5) {}
  lemma Odd9(v: bv64) ensures EvenBits(((v << 9) | (v >> 55)) >> 1) == Rotl32(EvenBits(v), 4) {}
  lemma Turn9(v: bv64) ensures Turns(v, 9) { hide EvenBits, Rotl32; Even9(v); Odd9(v); }
  lemma Even10(v: bv64) ensures EvenBits((v << 10) | (v >> 54)) == Rotl32(EvenBits(v), 5) {}
  lemma Odd10(v: bv64) ensures EvenBits(((v << 10) | (v >> 54)) >> 1) == Rotl32(EvenBits(v >> 1), 5) {}
  lemma Turn10(v: bv64) ensures Turns(v, 10) { hide EvenBits, Rotl32; Even10(v); Odd10(v); }
  lemma Even11(v: bv64) ensures EvenBits((v << 11) | (v >> 53)) == Rotl32(EvenBits(v >> 1), 6) {}
  lemma Odd11(v: bv64) ensures EvenBits(((v << 11) | (v >> 53)) >> 1) == Rotl32(EvenBits(v), 5) {}
  lemma Turn11(v: bv64) ensures Turns(v, 11) { hide EvenBits, Rotl32; Even11(v); Odd11(v); }
  lemma Even12(v: bv64) ensures EvenBits((v << 12) | (v >> 52)) == Rotl32(EvenBits(v), 6) {}
  lemma Odd12(v: bv64) ensures EvenBits(((v << 12) | (v >> 52)) >> 1) == Rotl32(EvenBits(v >> 1), 6) {}
  lemma Turn12(v: bv64) ensures Turns(v, 12) { hide EvenBits, Rotl32; Even12(v); Odd12(v); }
  lemma Even13(v: bv64) ensures EvenBits((v << 13) | (v >> 51)) == Rotl32(EvenBits(v >> 1), 7) {}
  lemma Odd13(v: bv64) ensures EvenBits(((v << 13) | (v >> 51)) >> 1) == Rotl32(EvenBits(v), 6) {}
  lemma Turn13(v: bv64) ensures Turns(v, 13) { hide EvenBits, Rotl32; Even13(v); Odd13(v); }
  lemma Even14(v: bv64) ensures EvenBits((v << 14) | (v >> 50)) == Rotl32(EvenBits(v), 7) {}
  lemma Odd14(v: bv64) ensures EvenBits(((v << 14) | (v >> 50)) >> 1) == Rotl32(EvenBits(v >> 1), 7) {}
  lemma Turn14(v: bv64) ensures Turns(v, 14) { hide EvenBits, Rotl32; Even14(v); Odd14(v); }
  lemma Even15(v: bv64) ensures EvenBits((v << 15) | (v >> 49)) == Rotl32(EvenBits(v >> 1), 8) {}
  lemma Odd15(v: bv64) ensures EvenBits(((v << 15) | (v >> 49)) >> 1) == Rotl32(EvenBits(v), 7) {}
  lemma Turn15(v: bv64) ensures Turns(v, 15) { hide EvenBits, Rotl32; Even15(v); Odd15(v); }
  lemma Even16(v: bv64) ensures EvenBits((v << 16) | (v >> 48)) == Rotl32(EvenBits(v), 8) {}
  lemma Odd16(v: bv64) ensures EvenBits(((v << 16) | (v >> 48)) >> 1) == Rotl32(EvenBits(v >> 1), 8) {}
  lemma Turn16(v: bv64) ensures Turns(v, 16) { hide EvenBits, Rotl32; Even16(v); Odd16(v); }
  lemma Even17(v: bv64) ensures EvenBits((v << 17) | (v >> 47)) == Rotl32(EvenBits(v >> 1), 9) {}
  lemma Odd17(v: bv64) ensures EvenBits(((v << 17) | (v >> 47)) >> 1) == Rotl32(EvenBits(v), 8) {}
  lemma Turn17(v: bv64) ensures Turns(v, 17) { hide EvenBits, Rotl32; Even17(v); Odd17(v); }
  lemma Even18(v: bv64) ensures EvenBits((v << 18) | (v >> 46)) == Rotl32(EvenBits(v), 9) {}
  lemma Odd18(v: bv64) ensures EvenBits(((v << 18) | (v >> 46)) >> 1) == Rotl32(EvenBits(v >> 1), 9) {}
  lemma Turn18(v: bv64) ensures Turns(v, 18) { hide EvenBits, Rotl32; Even18(v); Odd18(v); }
  lemma Even19(v: bv64) ensures EvenBits((v << 19) | (v >> 45)) == Rotl32(EvenBits(v >> 1), 10) {}
  lemma Odd19(v: bv64) ensures EvenBits(((v << 19) | (v >> 45)) >> 1) == Rotl32(EvenBits(v), 9) {}
  lemma Turn19(v: bv64) ensures Turns(v, 19) { hide EvenBits, Rotl32; Even19(v); Odd19(v); }
  lemma Even20(v: bv64) ensures EvenBits((v << 20) | (v >> 44)) == Rotl32(EvenBits(v), 10) {}
  lemma Odd20(v: bv64) ensures EvenBits(((v << 20) | (v >> 44)) >> 1) == Rotl32(EvenBits(v >> 1), 10) {}
  lemma Turn20(v: bv64) ensures Turns(v, 20) { hide EvenBits, Rotl32; Even20(v); Odd20(v); }
  lemma Even21(v: bv64) ensures EvenBits((v << 21) | (v >> 43)) == Rotl32(EvenBits(v >> 1), 11) {}
  lemma Odd21(v: bv64) ensures EvenBits(((v << 21) | (v >> 43)) >> 1) == Rotl32(EvenBits(v), 10) {}
  lemma Turn21(v: bv64) ensures Turns(v, 21) { hide EvenBits, Rotl32; Even21(v); Odd21(v); }
  lemma Even22(v: bv64) ensures EvenBits((v << 22) | (v >> 42)) == Rotl32(EvenBits(v), 11) {}
  lemma Odd22(v: bv64) ensures EvenBits(((v << 22) | (v >> 42)) >> 1) == Rotl32(EvenBits(v >> 1), 11) {}
  lemma Turn22(v: bv64) ensures Turns(v, 22) { hide EvenBits, Rotl32; Even22(v); Odd22(v); }
  lemma Even23(v: bv64) ensures EvenBits((v << 23) | (v >> 41)) == Rotl32(EvenBits(v >> 1), 12) {}
  lemma Odd23(v: bv64) ensures EvenBits(((v << 23) | (v >> 41)) >> 1) == Rotl32(EvenBits(v), 11) {}
  lemma Turn23(v: bv64) ensures Turns(v, 23) { hide EvenBits, Rotl32; Even23(v); Odd23(v); }
  lemma Even24(v: bv64) ensures EvenBits((v << 24) | (v >> 40)) == Rotl32(EvenBits(v), 12) {}
  lemma Odd24(v: bv64) ensures EvenBits(((v << 24) | (v >> 40)) >> 1) == Rotl32(EvenBits(v >> 1), 12) {}
  lemma Turn24(v: bv64) ensures Turns(v, 24) { hide EvenBits, Rotl32; Even24(v); Odd24(v); }
  lemma Even25(v: bv64) ensures EvenBits((v << 25) | (v >> 39)) == Rotl32(EvenBits(v >> 1), 13) {}
  lemma Odd25(v: bv64) ensures EvenBits(((v << 25) | (v >> 39)) >> 1) == Rotl32(EvenBits(v), 12) {}
  lemma Turn25(v: bv64) ensures Turns(v, 25) { hide EvenBits, Rotl32; Even25(v); Odd25(v); }
  lemma Even26(v: bv64) ensures EvenBits((v << 26) | (v >> 38)) == Rotl32(EvenBits(v), 13) {}
  lemma Odd26(v: bv64) ensures EvenBits(((v << 26) | (v >> 38)) >> 1) == Rotl32(EvenBits(v >> 1), 13) {}
  lemma Turn26(v: bv64) ensures Turns(v, 26) { hide EvenBits, Rotl32; Even26(v); Odd26(v); }
  lemma Even27(v: bv64) ensures EvenBits((v << 27) | (v >> 37)) == Rotl32(EvenBits(v >> 1), 14) {}
  lemma Odd27(v: bv64) ensures EvenBits(((v << 27) | (v >> 37)) >> 1) == Rotl32(EvenBits(v), 13) {}
  lemma Turn27(v: bv64) ensures Turns(v, 27) { hide EvenBits, Rotl32; Even27(v); Odd27(v); }
  lemma Even28(v: bv64) ensures EvenBits((v << 28) | (v >> 36)) == Rotl32(EvenBits(v), 14) {}
  lemma Odd28(v: bv64) ensures EvenBits(((v << 28) | (v >> 36)) >> 1) == Rotl32(EvenBits(v >> 1), 14) {}
  lemma Turn28(v: bv64) ensures Turns(v, 28) { hide EvenBits, Rotl32; Even28(v); Odd28(v); }
  lemma Even29(v: bv64) ensures EvenBits((v << 29) | (v >> 35)) == Rotl32(EvenBits(v >> 1), 15) {}
  lemma Odd29(v: bv64) ensures EvenBits(((v << 29) | (v >> 35)) >> 1) == Rotl32(EvenBits(v), 14) {}
  lemma Turn29(v: bv64) ensures Turns(v, 29) { hide EvenBits, Rotl32; Even29(v); Odd29(v); }
  lemma Even30(v: bv64) ensures EvenBits((v << 30) | (v >> 34)) == Rotl32(EvenBits(v), 15) {}
  lemma Odd30(v: bv64) ensures EvenBits(((v << 30) | (v >> 34)) >> 1) == Rotl32(EvenBits(v >> 1), 15) {}
  lemma Turn30(v: bv64) ensures Turns(v, 30) { hide EvenBits, Rotl32; Even30(v); Odd30(v); }
  lemma Even31(v: bv64) ensures EvenBits((v << 31) | (v >> 33)) == Rotl32(EvenBits(v >> 1), 16) {}
  lemma Odd31(v: bv64) ensures EvenBits(((v << 31) | (v >> 33)) >> 1) == Rotl32(EvenBits(v), 15) {}
  lemma Turn31(v: bv64) ensures Turns(v, 31) { hide EvenBits, Rotl32; Even31(v); Odd31(v); }
  lemma Even32(v: bv64) ensures EvenBits((v << 32) | (v >> 32)) == Rotl32(EvenBits(v), 16) {}
  lemma Odd32(v: bv64) ensures EvenBits(((v << 32) | (v >> 32)) >> 1) == Rotl32(EvenBits(v >> 1), 16) {}
  lemma Turn32(v: bv64) ensures Turns(v, 32) { hide EvenBits, Rotl32; Even32(v); Odd32(v); }
  lemma Even33(v: bv64) ensures EvenBits((v << 33) | (v >> 31)) == Rotl32(EvenBits(v >> 1), 17) {}
  lemma Odd33(v: bv64) ensures EvenBits(((v << 33) | (v >> 31)) >> 1) == Rotl32(EvenBits(v), 16) {}
  lemma Turn33(v: bv64) ensures Turns(v, 33) { hide EvenBits, Rotl32; Even33(v); Odd33(v); }
  lemma Even34(v: bv64) ensures EvenBits((v << 34) | (v >> 30)) == Rotl32(EvenBits(v), 17) {}
  lemma Odd34(v: bv64) ensures EvenBits(((v << 34) | (v >> 30)) >> 1) == Rotl32(EvenBits(v >> 1), 17) {}
  lemma Turn34(v: bv64) ensures Turns(v, 34) { hide EvenBits, Rotl32; Even34(v); Odd34(v); }
  lemma Even35(v: bv64) ensures EvenBits((v << 35) | (v >> 29)) == Rotl32(EvenBits(v >> 1), 18) {}
  lemma Odd35(v: bv64) ensures EvenBits(((v << 35) | (v >> 29)) >> 1) == Rotl32(EvenBits(v), 17) {}
  lemma Turn35(v: bv64) ensures Turns(v, 35) { hide EvenBits, Rotl32; Even35(v); Odd35(v); }
  lemma Even36(v: bv64) ensures EvenBits((v << 36) | (v >> 28)) == Rotl32(EvenBits(v), 18) {}
  lemma Odd36(v: bv64) ensures EvenBits(((v << 36) | (v >> 28)) >> 1) == Rotl32(EvenBits(v >> 1), 18) {}
  lemma Turn36(v: bv64) ensures Turns(v, 36) { hide EvenBits, Rotl32; Even36(v); Odd36(v); }
  lemma Even37(v: bv64) ensures EvenBits((v << 37) | (v >> 27)) == Rotl32(EvenBits(v >> 1), 19) {}
  lemma Odd37(v: bv64) ensures EvenBits(((v << 37) | (v >> 27)) >> 1) == Rotl32(EvenBits(v), 18) {}
  lemma Turn37(v: bv64) ensures Turns(v, 37) { hide EvenBits, Rotl32; Even37(v); Odd37(v); }
  lemma Even38(v: bv64) ensures EvenBits((v << 38) | (v >> 26)) == Rotl32(EvenBits(v), 19) {}
  lemma Odd38(v: bv64) ensures EvenBits(((v << 38) | (v >> 26)) >> 1) == Rotl32(EvenBits(v >> 1), 19) {}
  lemma Turn38(v: bv64) ensures Turns(v, 38) { hide EvenBits, Rotl32; Even38(v); Odd38(v); }
  lemma Even39(v: bv64) ensures EvenBits((v << 39) | (v >> 25)) == Rotl32(EvenBits(v >> 1), 20) {}
  lemma Odd39(v: bv64) ensures EvenBits(((v << 39) | (v >> 25)) >> 1) == Rotl32(EvenBits(v), 19) {}
  lemma Turn39(v: bv64) ensures Turns(v, 39) { hide EvenBits, Rotl32; Even39(v); Odd39(v); }
  lemma Even40(v: bv64) ensures EvenBits((v << 40) | (v >> 24)) == Rotl32(EvenBits(v), 20) {}
  lemma Odd40(v: bv64) ensures EvenBits(((v << 40) | (v >> 24)) >> 1) == Rotl32(EvenBits(v >> 1), 20) {}
  lemma Turn40(v: bv64) ensures Turns(v, 40) { hide EvenBits, Rotl32; Even40(v); Odd40(v); }
  lemma Even41(v: bv64) ensures EvenBits((v << 41) | (v >> 23)) == Rotl32(EvenBits(v >> 1), 21) {}
  lemma Odd41(v: bv64) ensures EvenBits(((v << 41) | (v >> 23)) >> 1) == Rotl32(EvenBits(v), 20) {}
  lemma Turn41(v: bv64) ensures Turns(v, 41) { hide EvenBits, Rotl32; Even41(v); Odd41(v); }
  lemma Even42(v: bv64) ensures EvenBits((v << 42) | (v >> 22)) == Rotl32(EvenBits(v), 21) {}
  lemma Odd42(v: bv64) ensures EvenBits(((v << 42) | (v >> 22)) >> 1) == Rotl32(EvenBits(v >> 1), 21) {}
  lemma Turn42(v: bv64) ensures Turns(v, 42) { hide EvenBits, Rotl32; Even42(v); Odd42(v); }
  lemma Even43(v: bv64) ensures EvenBits((v << 43) | (v >> 21)) == Rotl32(EvenBits(v >> 1), 22) {}
  lemma Odd43(v: bv64) ensures EvenBits(((v << 43) | (v >> 21)) >> 1) == Rotl32(EvenBits(v), 21) {}
  lemma Turn43(v: bv64) ensures Turns(v, 43) { hide EvenBits, Rotl32; Even43(v); Odd43(v); }
  lemma Even44(v: bv64) ensures EvenBits((v << 44) | (v >> 20)) == Rotl32(EvenBits(v), 22) {}
  lemma Odd44(v: bv64) ensures EvenBits(((v << 44) | (v >> 20)) >> 1) == Rotl32(EvenBits(v >> 1), 22) {}
  lemma Turn44(v: bv64) ensures Turns(v, 44) { hide EvenBits, Rotl32; Even44(v); Odd44(v); }
  lemma Even45(v: bv64) ensures EvenBits((v << 45) | (v >> 19)) == Rotl32(EvenBits(v >> 1), 23) {}
  lemma Odd45(v: bv64) ensures EvenBits(((v << 45) | (v >> 19)) >> 1) == Rotl32(EvenBits(v), 22) {}
  lemma Turn45(v: bv64) ensures Turns(v, 45) { hide EvenBits, Rotl32; Even45(v); Odd45(v); }
  lemma Even46(v: bv64) ensures EvenBits((v << 46) | (v >> 18)) == Rotl32(EvenBits(v), 23) {}
  lemma Odd46(v: bv64) ensures EvenBits(((v << 46) | (v >> 18)) >> 1) == Rotl32(EvenBits(v >> 1), 23) {}
  lemma Turn46(v: bv64) ensures Turns(v, 46) { hide EvenBits, Rotl32; Even46(v); Odd46(v); }
  lemma Even47(v: bv64) ensures EvenBits((v << 47) | (v >> 17)) == Rotl32(EvenBits(v >> 1), 24) {}
  lemma Odd47(v: bv64) ensures EvenBits(((v << 47) | (v >> 17)) >> 1) == Rotl32(EvenBits(v), 23) {}
  lemma Turn47(v: bv64) ensures Turns(v, 47) { hide EvenBits, Rotl32; Even47(v); Odd47(v); }
  lemma Even48(v: bv64) ensures EvenBits((v << 48) | (v >> 16)) == Rotl32(EvenBits(v), 24) {}
  lemma Odd48(v: bv64) ensures EvenBits(((v << 48) | (v >> 16)) >> 1) == Rotl32(EvenBits(v >> 1), 24) {}
  lemma Turn48(v: bv64) ensures Turns(v, 48) { hide EvenBits, Rotl32; Even48(v); Odd48(v); }
  lemma Even49(v: bv64) ensures EvenBits((v << 49) | (v >> 15)) == Rotl32(EvenBits(v >> 1), 25) {}
  lemma Odd49(v: bv64) ensures EvenBits(((v << 49) | (v >> 15)) >> 1) == Rotl32(EvenBits(v), 24) {}
  lemma Turn49(v: bv64) ensures Turns(v, 49) { hide EvenBits, Rotl32; Even49(v); Odd49(v); }
  lemma Even50(v: bv64) ensures EvenBits((v << 50) | (v >> 14)) == Rotl32(EvenBits(v), 25) {}
  lemma Odd50(v: bv64) ensures EvenBits(((v << 50) | (v >> 14)) >> 1) == Rotl32(EvenBits(v >> 1), 25) {}
  lemma Turn50(v: bv64) ensures Turns(v, 50) { hide EvenBits, Rotl32; Even50(v); Odd50(v); }
  lemma Even51(v: bv64) ensures EvenBits((v << 51) | (v >> 13)) == Rotl32(EvenBits(v >> 1), 26) {}
  lemma Odd51(v: bv64) ensures EvenBits(((v << 51) | (v >> 13)) >> 1) == Rotl32(EvenBits(v), 25) {}
  lemma Turn51(v: bv64) ensures Turns(v, 51) { hide EvenBits, Rotl32; Even51(v); Odd51(v); }
  lemma Even52(v: bv64) ensures EvenBits((v << 52) | (v >> 12)) == Rotl32(EvenBits(v), 26) {}
  lemma Odd52(v: bv64) ensures EvenBits(((v << 52) | (v >> 12)) >> 1) == Rotl32(EvenBits(v >> 1), 26) {}
  lemma Turn52(v: bv64) ensures Turns(v, 52) { hide EvenBits, Rotl32; Even52(v); Odd52(v); }
  lemma Even53(v: bv64) ensures EvenBits((v << 53) | (v >> 11)) == Rotl32(EvenBits(v >> 1), 27) {}
  lemma Odd53(v: bv64) ensures EvenBits(((v << 53) | (v >> 11)) >> 1) == Rotl32(EvenBits(v), 26) {}
  lemma Turn53(v: bv64) ensures Turns(v, 53) { hide EvenBits, Rotl32; Even53(v); Odd53(v); }
  lemma Even54(v: bv64) ensures EvenBits((v << 54) | (v >> 10)) == Rotl32(EvenBits(v), 27) {}
  lemma Odd54(v: bv64) ensures EvenBits(((v << 54) | (v >> 10)) >> 1) == Rotl32(EvenBits(v >> 1), 27) {}
  lemma Turn54(v: bv64) ensures Turns(v, 54) { hide EvenBits, Rotl32; Even54(v); Odd54(v); }
  lemma Even55(v: bv64) ensures EvenBits((v << 55) | (v >> 9)) == Rotl32(EvenBits(v >> 1), 28) {}
  lemma Odd55(v: bv64) ensures EvenBits(((v << 55) | (v >> 9)) >> 1) == Rotl32(EvenBits(v), 27) {}
  lemma Turn55(v: bv64) ensures Turns(v, 55) { hide EvenBits, Rotl32; Even55(v); Odd55(v); }
  lemma Even56(v: bv64) ensures EvenBits((v << 56) | (v >> 8)) == Rotl32(EvenBits(v), 28) {}
  lemma Odd56(v: bv64) ensures EvenBits(((v << 56) | (v >> 8)) >> 1) == Rotl32(EvenBits(v >> 1), 28) {}
  lemma Turn56(v: bv64) ensures Turns(v, 56) { hide EvenBits, Rotl32; Even56(v); Odd56(v); }
  lemma Even57(v: bv64) ensures EvenBits((v << 57) | (v >> 7)) == Rotl32(EvenBits(v >> 1), 29) {}
  lemma Odd57(v: bv64) ensures EvenBits(((v << 57) | (v >> 7)) >> 1) == Rotl32(EvenBits(v), 28) {}
  lemma Turn57(v: bv64) ensures Turns(v, 57) { hide EvenBits, Rotl32; Even57(v); Odd57(v); }
  lemma Even58(v: bv64) ensures EvenBits((v << 58) | (v >> 6)) == Rotl32(EvenBits(v), 29) {}
  lemma Odd58(v: bv64) ensures EvenBits(((v << 58) | (v >> 6)) >> 1) == Rotl32(EvenBits(v >> 1), 29) {}
  lemma Turn58(v: bv64) ensures Turns(v, 58) { hide EvenBits, Rotl32; Even58(v); Odd58(v); }
  lemma Even59(v: bv64) ensures EvenBits((v << 59) | (v >> 5)) == Rotl32(EvenBits(v >> 1), 30) {}
  lemma Odd59(v: bv64) ensures EvenBits(((v << 59) | (v >> 5)) >> 1) == Rotl32(EvenBits(v), 29) {}
  lemma Turn59(v: bv64) ensures Turns(v, 59) { hide EvenBits, Rotl32; Even59(v); Odd59(v); }
  lemma Even60(v: bv64) ensures EvenBits((v << 60) | (v >> 4)) == Rotl32(EvenBits(v), 30) {}
  lemma Odd60(v: bv64) ensures EvenBits(((v << 60) | (v >> 4)) >> 1) == Rotl32(EvenBits(v >> 1), 30) {}
  lemma Turn60(v: bv64) ensures Turns(v, 60) { hide EvenBits, Rotl32; Even60(v); Odd60(v); }
  lemma Even61(v: bv64) ensures EvenBits((v << 61) | (v >> 3)) == Rotl32(EvenBits(v >> 1), 31) {}
  lemma Odd61(v: bv64) ensures EvenBits(((v << 61) | (v >> 3)) >> 1) == Rotl32(EvenBits(v), 30) {}
  lemma Turn61(v: bv64) ensures Turns(v, 61) { hide EvenBits, Rotl32; Even61(v); Odd61(v); }
  lemma Even62(v: bv64) ensures EvenBits((v << 62) | (v >> 2)) == Rotl32(EvenBits(v), 31) {}
  lemma Odd62(v: bv64) ensures EvenBits(((v << 62) | (v >> 2)) >> 1) == Rotl32(EvenBits(v >> 1), 31) {}
  lemma Turn62(v: bv64) ensures Turns(v, 62) { hide EvenBits, Rotl32; Even62(v); Odd62(v); }

  lemma EveryTurn(v: bv64, n: int)
    requires 1 <= n <= 62
    ensures Turns(v, n)
  {
    hide Turns;
    match n {
      case 1 => Turn1(v);
      case 2 => Turn2(v);
      case 3 => Turn3(v);
      case 4 => Turn4(v);
      case 5 => Turn5(v);
      case 6 => Turn6(v);
      case 7 => Turn7(v);
      case 8 => Turn8(v);
      case 9 => Turn9(v);
      case 10 => Turn10(v);
      case 11 => Turn11(v);
      case 12 => Turn12(v);
      case 13 => Turn13(v);
      case 14 => Turn14(v);
      case 15 => Turn15(v);
      case 16 => Turn16(v);
      case 17 => Turn17(v);
      case 18 => Turn18(v);
      case 19 => Turn19(v);
      case 20 => Turn20(v);
      case 21 => Turn21(v);
      case 22 => Turn22(v);
      case 23 => Turn23(v);
      case 24 => Turn24(v);
      case 25 => Turn25(v);
      case 26 => Turn26(v);
      case 27 => Turn27(v);
      case 28 => Turn28(v);
      case 29 => Turn29(v);
      case 30 => Turn30(v);
      case 31 => Turn31(v);
      case 32 => Turn32(v);
      case 33 => Turn33(v);
      case 34 => Turn34(v);
      case 35 => Turn35(v);
      case 36 => Turn36(v);
      case 37 => Turn37(v);
      case 38 => Turn38(v);
      case 39 => Turn39(v);
      case 40 => Turn40(v);
      case 41 => Turn41(v);
      case 42 => Turn42(v);
      case 43 => Turn43(v);
      case 44 => Turn44(v);
      case 45 => Turn45(v);
      case 46 => Turn46(v);
      case 47 => Turn47(v);
      case 48 => Turn48(v);
      case 49 => Turn49(v);
      case 50 => Turn50(v);
      case 51 => Turn51(v);
      case 52 => Turn52(v);
      case 53 => Turn53(v);
      case 54 => Turn54(v);
      case 55 => Turn55(v);
      case 56 => Turn56(v);
      case 57 => Turn57(v);
      case 58 => Turn58(v);
      case 59 => Turn59(v);
      case 60 => Turn60(v);
      case 61 => Turn61(v);
      case _ => Turn62(v);
    }
  }
}
